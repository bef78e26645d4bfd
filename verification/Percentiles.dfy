/** Percentiles, medians and interquartile ranges of internal/ml/statistics.go, over the reals. */
module Percentiles {
  import opened Samples

  function CalculatePercentile(sorted: seq<real>, p: real): real {
    if |sorted| == 0 then 0.0
    else if p <= 0.0 then sorted[0]
    else if p >= 100.0 then sorted[|sorted| - 1]
    else
      RankInRange(|sorted|, p);
      var rank := Rank(|sorted|, p);
      var lower := rank.Floor;
      var upper := lower + 1;
      if upper >= |sorted| then sorted[|sorted| - 1]
      else
        var weight := rank - lower as real;
        sorted[lower] * (1.0 - weight) + sorted[upper] * weight
  }

  function Rank(n: nat, p: real): real {
    (p / 100.0) * (n as real - 1.0)
  }

  lemma RankInRange(n: nat, p: real)
    requires n > 0 && 0.0 <= p <= 100.0
    ensures 0.0 <= Rank(n, p) <= n as real - 1.0
    ensures 0 <= Rank(n, p).Floor < n
  {
    Products(p / 100.0, 1.0, n as real - 1.0);
    Products(0.0, p / 100.0, n as real - 1.0);
  }

  lemma Products(a: real, b: real, m: real)
    requires a <= b && m >= 0.0
    ensures a * m <= b * m
  {
  }

  function CalculateMedian(values: seq<real>): real {
    if |values| == 0 then 0.0
    else
      SortSorts(values);
      var sorted := Sort(values);
      var n := |sorted|;
      if n % 2 == 0 then (sorted[n / 2 - 1] + sorted[n / 2]) / 2.0 else sorted[n / 2]
  }

  function CalculateIQR(values: seq<real>): real {
    if |values| == 0 then 0.0
    else
      var sorted := Sort(values);
      CalculatePercentile(sorted, 75.0) - CalculatePercentile(sorted, 25.0)
  }

  /** The straight line through the points (k, sorted[k]), clamped at both ends. */
  function Line(sorted: seq<real>, x: real): real
    requires sorted != []
  {
    var k := x.Floor;
    if x <= 0.0 then sorted[0]
    else if k + 1 >= |sorted| then sorted[|sorted| - 1]
    else Between(sorted[k], sorted[k + 1], x - k as real)
  }

  function Between(a: real, b: real, weight: real): real {
    a + (b - a) * weight
  }

  lemma BetweenIsMonotone(a: real, b: real, v: real, w: real)
    requires a <= b && 0.0 <= v <= w <= 1.0
    ensures a <= Between(a, b, v) <= Between(a, b, w) <= b
  {
    Products(0.0, v, b - a);
    Products(v, w, b - a);
    Products(w, 1.0, b - a);
  }

  lemma WeightedSum(a: real, b: real, weight: real)
    ensures a * (1.0 - weight) + b * weight == Between(a, b, weight)
  {
  }

  lemma PercentileIsOnLine(sorted: seq<real>, p: real)
    requires sorted != [] && 0.0 <= p <= 100.0
    ensures CalculatePercentile(sorted, p) == Line(sorted, Rank(|sorted|, p))
  {
    var rank := Rank(|sorted|, p);
    RankInRange(|sorted|, p);
    if 0.0 < p < 100.0 && rank.Floor + 1 < |sorted| {
      WeightedSum(sorted[rank.Floor], sorted[rank.Floor + 1], rank - rank.Floor as real);
    }
  }

  /** The line through a sorted sample stays between the two elements it joins. */
  lemma LineInStep(sorted: seq<real>, x: real)
    requires sorted != [] && IsSorted(sorted) && 0.0 <= x <= |sorted| as real - 1.0
    ensures var k := x.Floor;
            0 <= k < |sorted| && sorted[k] <= Line(sorted, x) &&
            Line(sorted, x) <= sorted[if k + 1 < |sorted| then k + 1 else k]
  {
    var k := x.Floor;
    if 0.0 < x && k + 1 < |sorted| {
      BetweenIsMonotone(sorted[k], sorted[k + 1], x - k as real, 1.0);
    }
  }

  lemma LineIsMonotone(sorted: seq<real>, x: real, y: real)
    requires sorted != [] && IsSorted(sorted) && 0.0 <= x <= y <= |sorted| as real - 1.0
    ensures Line(sorted, x) <= Line(sorted, y)
  {
    LineInStep(sorted, x);
    LineInStep(sorted, y);
    var k := x.Floor;
    if 0.0 < x && k == y.Floor && k + 1 < |sorted| {
      BetweenIsMonotone(sorted[k], sorted[k + 1], x - k as real, y - k as real);
    }
  }

  lemma Clamped(sorted: seq<real>, p: real)
    requires sorted != []
    ensures CalculatePercentile(sorted, p) == Line(sorted, Rank(|sorted|, Clamp(p)))
  {
    PercentileIsOnLine(sorted, Clamp(p));
  }

  lemma RankIsMonotone(n: nat, p: real, q: real)
    requires n > 0 && 0.0 <= p <= q <= 100.0
    ensures 0.0 <= Rank(n, p) <= Rank(n, q) <= n as real - 1.0
  {
    RankInRange(n, p);
    RankInRange(n, q);
    var a, b := p / 100.0, q / 100.0;
    assert a <= b;
    Products(a, b, n as real - 1.0);
    assert Rank(n, p) == a * (n as real - 1.0);
    assert Rank(n, q) == b * (n as real - 1.0);
  }

  lemma PercentileIsMonotone(sorted: seq<real>, p: real, q: real)
    requires IsSorted(sorted) && p <= q
    ensures CalculatePercentile(sorted, p) <= CalculatePercentile(sorted, q)
  {
    if sorted != [] {
      var p', q' := Clamp(p), Clamp(q);
      Clamped(sorted, p);
      Clamped(sorted, q);
      RankIsMonotone(|sorted|, p', q');
      LineIsMonotone(sorted, Rank(|sorted|, p'), Rank(|sorted|, q'));
    }
  }

  function Clamp(p: real): (q: real)
    ensures 0.0 <= q <= 100.0
  {
    if p <= 0.0 then 0.0 else if p >= 100.0 then 100.0 else p
  }

  lemma PercentileInRange(sorted: seq<real>, p: real)
    requires sorted != [] && IsSorted(sorted)
    ensures sorted[0] <= CalculatePercentile(sorted, p) <= sorted[|sorted| - 1]
  {
    if p <= 0.0 {
      PercentileIsMonotone(sorted, p, 100.0);
    } else {
      PercentileIsMonotone(sorted, 0.0, p);
      PercentileIsMonotone(sorted, p, if p >= 100.0 then p else 100.0);
    }
  }

  /** What makes it a percentile: with rank p/100 * (n - 1), at least floor(rank) + 1 elements are
      at most the result and at most floor(rank) + 1 are below it. */
  lemma PercentileSplitsSample(values: seq<real>, p: real)
    requires values != [] && 0.0 <= p <= 100.0
    ensures var r := CalculatePercentile(Sort(values), p);
            CountTo(values, r, true) <= Rank(|values|, p).Floor + 1 <= CountTo(values, r, false)
  {
    SortSorts(values);
    var sorted := Sort(values);
    var r := CalculatePercentile(sorted, p);
    var rank := Rank(|sorted|, p);
    RankInRange(|sorted|, p);
    PercentileIsOnLine(sorted, p);
    LineInStep(sorted, rank);
    SortCounts(values, r, true);
    SortCounts(values, r, false);
    CountIsIndex(sorted, r, false, rank.Floor);
    if rank.Floor + 1 < |sorted| {
      CountIsIndex(sorted, r, true, rank.Floor + 1);
    }
  }

  lemma MiddleRank(n: nat)
    requires n > 0
    ensures Rank(n, 50.0) == (if n % 2 == 0 then (n / 2 - 1) as real + 0.5 else (n / 2) as real)
    ensures Rank(n, 50.0).Floor == if n % 2 == 0 then n / 2 - 1 else n / 2
  {
    var x := if n % 2 == 0 then (n / 2 - 1) as real + 0.5 else (n / 2) as real;
    assert Rank(n, 50.0) == 0.5 * (n as real - 1.0) == x;
  }

  lemma Midpoint(a: real, b: real)
    ensures Between(a, b, 0.5) == (a + b) / 2.0 && Between(a, b, 0.0) == a
  {
  }

  /** The median is the 50th percentile of the sorted values, for even and odd sizes alike. */
  lemma MedianIsFiftiethPercentile(values: seq<real>)
    ensures CalculateMedian(values) == CalculatePercentile(Sort(values), 50.0)
  {
    SortSorts(values);
    if values != [] {
      var sorted := Sort(values);
      var n := |sorted|;
      PercentileIsOnLine(sorted, 50.0);
      MiddleRank(n);
      MedianOnLine(sorted);
    }
  }

  lemma MedianOnLine(sorted: seq<real>)
    requires sorted != []
    ensures var n := |sorted|;
            Line(sorted, if n % 2 == 0 then (n / 2 - 1) as real + 0.5 else (n / 2) as real) ==
            if n % 2 == 0 then (sorted[n / 2 - 1] + sorted[n / 2]) / 2.0 else sorted[n / 2]
  {
    var n := |sorted|;
    var k := if n % 2 == 0 then n / 2 - 1 else n / 2;
    if k + 1 < n {
      Midpoint(sorted[k], sorted[k + 1]);
    }
  }

  /** The interquartile range is never negative, nor wider than the sample. */
  lemma IqrInRange(values: seq<real>)
    ensures CalculateIQR(values) >= 0.0
    ensures values != [] ==> |Sort(values)| == |values| &&
                             CalculateIQR(values) <= Sort(values)[|values| - 1] - Sort(values)[0]
  {
    SortSorts(values);
    var sorted := Sort(values);
    if values != [] {
      PercentileIsMonotone(sorted, 25.0, 75.0);
      PercentileInRange(sorted, 25.0);
      PercentileInRange(sorted, 75.0);
    }
  }

  // ---- Between the ranks ----

  lemma RankAt(n: nat, x: real)
    requires n > 1
    ensures Rank(n, 100.0 * x / (n as real - 1.0)) == x
  {
    var m := n as real - 1.0;
    assert 100.0 * x / m / 100.0 * m == x;
  }

  lemma RankFits(n: nat, x: real)
    requires n > 1 && 0.0 <= x <= n as real - 1.0
    ensures 0.0 <= 100.0 * x / (n as real - 1.0) <= 100.0
  {
    Quotients(100.0 * x, 100.0 * (n as real - 1.0), n as real - 1.0);
  }

  lemma Quotients(a: real, b: real, m: real)
    requires 0.0 <= a <= b && m > 0.0
    ensures 0.0 <= a / m <= b / m
  {
  }

  /** Between the ranks of two neighbours the percentile goes along the straight line that joins them. */
  lemma StraightBetweenRanks(sorted: seq<real>, k: nat, t: real)
    requires k + 1 < |sorted| && 0.0 <= t <= 1.0
    ensures CalculatePercentile(sorted, 100.0 * (k as real + t) / (|sorted| as real - 1.0)) ==
            sorted[k] + (sorted[k + 1] - sorted[k]) * t
  {
    var x := k as real + t;
    RankAt(|sorted|, x);
    RankFits(|sorted|, x);
    PercentileIsOnLine(sorted, 100.0 * x / (|sorted| as real - 1.0));
    if t == 1.0 {
      assert x.Floor == k + 1;
    } else {
      assert x.Floor == k;
    }
  }

  /** The point `quarters` / 4 steps into the sample, on the line between the elements around it. */
  function QuarterPoint(sorted: seq<real>, quarters: nat): real
    requires quarters / 4 < |sorted|
  {
    var k := quarters / 4;
    if quarters % 4 == 0 then sorted[k]
    else if k + 1 < |sorted| then sorted[k] + (sorted[k + 1] - sorted[k]) * (quarters % 4) as real / 4.0
    else sorted[k]
  }

  lemma PercentileAtQuarter(sorted: seq<real>, i: nat)
    requires sorted != [] && i <= 4
    ensures CalculatePercentile(sorted, 25.0 * i as real) == QuarterPoint(sorted, i * (|sorted| - 1))
  {
    if |sorted| > 1 && 0 < i < 4 {
      var m := |sorted| - 1;
      QuarterRank(i, m);
      StraightBetweenRanks(sorted, i * m / 4, (i * m % 4) as real / 4.0);
    }
  }

  lemma QuarterRank(i: nat, m: nat)
    requires m > 0 && i < 4
    ensures i * m / 4 < m
    ensures 100.0 * ((i * m / 4) as real + (i * m % 4) as real / 4.0) / m as real == 25.0 * i as real
  {
    var steps := i * m;
    assert steps <= 3 * m;
    Quarters(steps);
    assert steps as real == i as real * m as real;
    Hundredths(i as real, m as real);
  }

  lemma Quarters(steps: nat)
    ensures (steps / 4) as real + (steps % 4) as real / 4.0 == steps as real / 4.0
  {
    assert steps == 4 * (steps / 4) + steps % 4;
  }

  lemma Hundredths(i: real, m: real)
    requires m > 0.0
    ensures 100.0 * (i * m / 4.0) / m == 25.0 * i
  {
    assert 100.0 * (i * m / 4.0) == 25.0 * i * m;
  }

  /** The interquartile range joins the two points a quarter of the way into the sample from either end. */
  lemma IqrJoinsQuartiles(values: seq<real>)
    requires values != []
    ensures var sorted, n := Sort(values), |values|;
            |sorted| == n && CalculateIQR(values) == QuarterPoint(sorted, 3 * (n - 1)) - QuarterPoint(sorted, n - 1)
  {
    SortSorts(values);
    PercentileAtQuarter(Sort(values), 1);
    PercentileAtQuarter(Sort(values), 3);
  }
}
