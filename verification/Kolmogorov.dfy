/** The two-sample Kolmogorov-Smirnov statistic of internal/ml/statistics.go, and how far its
    merge loop is from the textbook statistic. Deviations are scaled by both sample sizes, so
    that they are integers. */
module Kolmogorov {
  import opened Samples

  /** |i/n1 - j/n2|, times n1 * n2. */
  function Dev(n1: nat, n2: nat, i: nat, j: nat): nat {
    if i * n2 >= j * n1 then i * n2 - j * n1 else j * n1 - i * n2
  }

  function Max(a: nat, b: nat): nat {
    if a >= b then a else b
  }

  /** Where the loop's pointers go next. */
  function Advance(s1: seq<real>, s2: seq<real>, i: nat, j: nat): (p: (nat, nat))
    requires i <= |s1| && j <= |s2| && (i < |s1| || j < |s2|)
    ensures p.0 <= |s1| && p.1 <= |s2| && p.0 + p.1 > i + j
  {
    if i < |s1| && j < |s2| then
      if s1[i] < s2[j] then (i + 1, j)
      else if s1[i] > s2[j] then (i, j + 1)
      else (i + 1, j + 1)
    else if i < |s1| then (i + 1, j)
    else (i, j + 1)
  }

  /** The largest deviation the loop sees after the pointers have left (i, j). */
  function MaxFrom(s1: seq<real>, s2: seq<real>, i: nat, j: nat): nat
    requires i <= |s1| && j <= |s2|
    decreases |s1| + |s2| - i - j
  {
    if i == |s1| && j == |s2| then 0
    else
      var (i', j') := Advance(s1, s2, i, j);
      Max(Dev(|s1|, |s2|, i', j'), MaxFrom(s1, s2, i', j'))
  }

  /** The scaled statistic. */
  function Statistic(sample1: seq<real>, sample2: seq<real>): nat {
    SortSorts(sample1);
    SortSorts(sample2);
    MaxFrom(Sort(sample1), Sort(sample2), 0, 0)
  }

  function Abs(x: real): real {
    if x >= 0.0 then x else -x
  }

  /** `x` is the scaled deviation `k` brought back between 0 and 1. */
  ghost predicate Unscaled(x: real, k: nat, n1: nat, n2: nat) {
    n1 > 0 && n2 > 0 && (n1 * n2) as real > 0.0 && x == k as real / (n1 * n2) as real
  }

  lemma RealDev(n1: nat, n2: nat, i: nat, j: nat)
    requires n1 > 0 && n2 > 0
    ensures Unscaled(Abs(i as real / n1 as real - j as real / n2 as real), Dev(n1, n2, i, j), n1, n2)
  {
    var a, b := n1 as real, n2 as real;
    assert (n1 * n2) as real == a * b;
    assert (i * n2) as real == i as real * b && (j * n1) as real == j as real * a;
    assert i as real / a == (i as real * b) / (a * b);
    assert j as real / b == (j as real * a) / (a * b);
  }

  lemma SameOrder(x: real, a: nat, y: real, b: nat, n1: nat, n2: nat)
    requires Unscaled(x, a, n1, n2) && Unscaled(y, b, n1, n2)
    ensures x > y <==> a > b
  {
    Dividing(a as real, b as real, (n1 * n2) as real);
  }

  lemma Dividing(a: real, b: real, m: real)
    requires m > 0.0
    ensures a / m > b / m <==> a > b
  {
  }

  lemma NothingSeen(n1: nat, n2: nat)
    requires n1 > 0 && n2 > 0
    ensures Unscaled(0.0, 0, n1, n2)
  {
    RealDev(n1, n2, 0, 0);
  }

  /** The larger of `x` and the new deviation stands for the larger of the scaled ones. */
  lemma Raised(n1: nat, n2: nat, i: nat, j: nat, x: real, seen: nat, now: nat)
    requires Unscaled(x, seen, n1, n2) && now == Max(seen, Dev(n1, n2, i, j))
    ensures var d := Abs(i as real / n1 as real - j as real / n2 as real);
            Unscaled(if d > x then d else x, now, n1, n2)
  {
    RealDev(n1, n2, i, j);
    SameOrder(Abs(i as real / n1 as real - j as real / n2 as real), Dev(n1, n2, i, j), x, seen, n1, n2);
  }

  lemma MaxSplits(s1: seq<real>, s2: seq<real>, i: nat, j: nat, p: (nat, nat), seen: nat) returns (now: nat)
    requires i <= |s1| && j <= |s2| && (i < |s1| || j < |s2|) && p == Advance(s1, s2, i, j)
    ensures now == Max(seen, Dev(|s1|, |s2|, p.0, p.1))
    ensures Max(now, MaxFrom(s1, s2, p.0, p.1)) == Max(seen, MaxFrom(s1, s2, i, j))
  {
    now := Max(seen, Dev(|s1|, |s2|, p.0, p.1));
  }

  /** The statistic KolmogorovSmirnovTest reports; p-values and thresholds are left out. */
  method KolmogorovSmirnov(sample1: seq<real>, sample2: seq<real>) returns (maxD: real)
    ensures sample1 == [] || sample2 == [] ==> maxD == 0.0
    ensures sample1 != [] && sample2 != [] ==>
              Unscaled(maxD, Statistic(sample1, sample2), |sample1|, |sample2|)
  {
    maxD := 0.0;
    if |sample1| == 0 || |sample2| == 0 {
      return;
    }
    SortSorts(sample1);
    SortSorts(sample2);
    var s1, s2 := Sort(sample1), Sort(sample2);
    var n1, n2 := |s1|, |s2|;
    NothingSeen(n1, n2);
    ghost var scaled: nat := 0;
    var i, j := 0, 0;
    while i < |s1| || j < |s2|
      invariant i <= |s1| && j <= |s2|
      invariant Max(scaled, MaxFrom(s1, s2, i, j)) == MaxFrom(s1, s2, 0, 0)
      invariant Unscaled(maxD, scaled, n1, n2)
      decreases |s1| + |s2| - i - j
    {
      ghost var next := Advance(s1, s2, i, j);
      ghost var seen := MaxSplits(s1, s2, i, j, next, scaled);
      if i < |s1| && j < |s2| {
        if s1[i] < s2[j] {
          i := i + 1;
        } else if s1[i] > s2[j] {
          j := j + 1;
        } else {
          i, j := i + 1, j + 1;
        }
      } else if i < |s1| {
        i := i + 1;
      } else {
        j := j + 1;
      }
      assert (i, j) == next;
      var d1, d2 := i as real / n1 as real, j as real / n2 as real;
      var d := Abs(d1 - d2);
      Raised(n1, n2, i, j, maxD, scaled, seen);
      if d > maxD {
        maxD := d;
      }
      scaled := seen;
    }
  }

  // ---- The textbook statistic ----

  /** |F1(v) - F2(v)| for the two empirical distribution functions, scaled. */
  function DevAt(s1: seq<real>, s2: seq<real>, v: real): nat {
    Dev(|s1|, |s2|, CountTo(s1, v, false), CountTo(s2, v, false))
  }

  function Lesser(a: nat, b: nat): nat {
    if a <= b then a else b
  }

  function Copies(s: seq<real>, v: real): nat {
    InsideMonotone(s, v);
    CountTo(s, v, false) - CountTo(s, v, true)
  }

  /** Where the loop stands after `k` steps among the elements equal to `v`: both pointers
      advance together until one sample runs out of copies of `v`. */
  function Place(s1: seq<real>, s2: seq<real>, v: real, k: nat): (p: (nat, nat)) {
    (CountTo(s1, v, true) + Lesser(k, Copies(s1, v)), CountTo(s2, v, true) + Lesser(k, Copies(s2, v)))
  }

  function DevIn(s1: seq<real>, s2: seq<real>, v: real, k: nat): nat {
    var p := Place(s1, s2, v, k);
    Dev(|s1|, |s2|, p.0, p.1)
  }

  /** The deviation after both pointers have passed as many copies of `v` as both samples hold:
      the one point of a run of ties that the textbook statistic does not look at and that can
      exceed all those it does. */
  function Kink(s1: seq<real>, s2: seq<real>, v: real): nat {
    DevIn(s1, s2, v, Lesser(Copies(s1, v), Copies(s2, v)))
  }

  lemma {:induction false} InsideMonotone(s: seq<real>, v: real)
    ensures CountTo(s, v, true) <= CountTo(s, v, false)
  {
    if s != [] {
      InsideMonotone(s[1..], v);
    }
  }

  // ---- From below: the loop passes through every cut and every kink ----

  lemma {:induction false} CutVisited(s1: seq<real>, s2: seq<real>, i: nat, j: nat, v: real, strict: bool)
    requires IsSorted(s1) && IsSorted(s2)
    requires i <= CountTo(s1, v, strict) && j <= CountTo(s2, v, strict)
    ensures var c1, c2 := CountTo(s1, v, strict), CountTo(s2, v, strict);
            MaxFrom(s1, s2, i, j) >= MaxFrom(s1, s2, c1, c2) &&
            ((i == c1 && j == c2) || MaxFrom(s1, s2, i, j) >= Dev(|s1|, |s2|, c1, c2))
    decreases |s1| + |s2| - i - j
  {
    var c1, c2 := CountTo(s1, v, strict), CountTo(s2, v, strict);
    if i != c1 || j != c2 {
      var p := Advance(s1, s2, i, j);
      AdvanceStaysBelow(s1, s2, i, j, v, strict);
      CutVisited(s1, s2, p.0, p.1, v, strict);
    }
  }

  lemma AdvanceStaysBelow(s1: seq<real>, s2: seq<real>, i: nat, j: nat, v: real, strict: bool)
    requires IsSorted(s1) && IsSorted(s2)
    requires i <= CountTo(s1, v, strict) && j <= CountTo(s2, v, strict)
    requires i < CountTo(s1, v, strict) || j < CountTo(s2, v, strict)
    ensures Advance(s1, s2, i, j).0 <= CountTo(s1, v, strict)
    ensures Advance(s1, s2, i, j).1 <= CountTo(s2, v, strict)
  {
    if i < |s1| {
      CountIsIndex(s1, v, strict, i);
    }
    if j < |s2| {
      CountIsIndex(s2, v, strict, j);
    }
  }

  /** Among the copies of `v`, one step of the loop is one step of Place. */
  lemma AdvanceInBlock(s1: seq<real>, s2: seq<real>, v: real, k: nat)
    requires IsSorted(s1) && IsSorted(s2)
    requires k < Copies(s1, v) || k < Copies(s2, v)
    ensures var p := Place(s1, s2, v, k);
            (p.0 < |s1| || p.1 < |s2|) && Advance(s1, s2, p.0, p.1) == Place(s1, s2, v, k + 1)
  {
    var p := Place(s1, s2, v, k);
    if p.0 < |s1| {
      CountIsIndex(s1, v, false, p.0);
      CountIsIndex(s1, v, true, p.0);
    }
    if p.1 < |s2| {
      CountIsIndex(s2, v, false, p.1);
      CountIsIndex(s2, v, true, p.1);
    }
  }

  lemma PlaceInRange(s1: seq<real>, s2: seq<real>, v: real, k: nat)
    ensures Place(s1, s2, v, k).0 <= |s1| && Place(s1, s2, v, k).1 <= |s2|
  {
  }

  function MaxAfter(s1: seq<real>, s2: seq<real>, v: real, k: nat): nat {
    PlaceInRange(s1, s2, v, k);
    var p := Place(s1, s2, v, k);
    MaxFrom(s1, s2, p.0, p.1)
  }

  lemma {:induction false} KinkVisited(s1: seq<real>, s2: seq<real>, v: real, k: nat)
    requires IsSorted(s1) && IsSorted(s2)
    requires k < Lesser(Copies(s1, v), Copies(s2, v))
    ensures MaxAfter(s1, s2, v, k) >= Kink(s1, s2, v)
    decreases Copies(s1, v) - k
  {
    AdvanceInBlock(s1, s2, v, k);
    if k + 1 < Lesser(Copies(s1, v), Copies(s2, v)) {
      KinkVisited(s1, s2, v, k + 1);
    }
  }

  lemma NotBelow(s1: seq<real>, s2: seq<real>, v: real)
    requires IsSorted(s1) && IsSorted(s2)
    ensures DevAt(s1, s2, v) <= MaxFrom(s1, s2, 0, 0) && Kink(s1, s2, v) <= MaxFrom(s1, s2, 0, 0)
  {
    CutVisited(s1, s2, 0, 0, v, false);
    CutVisited(s1, s2, 0, 0, v, true);
    if 0 < Lesser(Copies(s1, v), Copies(s2, v)) {
      KinkVisited(s1, s2, v, 0);
    }
  }

  // ---- From above: it passes through nothing that exceeds both ----

  /** On a straight piece of the path the deviation is largest at an end. */
  lemma Straight(a: int, slope: int, k: nat, m: nat, bound: int)
    requires k <= m && -bound <= a <= bound && -bound <= a + slope * m <= bound
    ensures -bound <= a + slope * k <= bound
  {
    if slope >= 0 {
      assert 0 <= slope * k <= slope * m by { Scaling(slope, k, m); }
    } else {
      assert slope * m <= slope * k <= 0 by { Scaling(-slope, k, m); }
    }
  }

  lemma {:induction false} Scaling(slope: nat, k: nat, m: nat)
    requires k <= m
    ensures 0 <= slope * k <= slope * m
  {
    assert slope * m == slope * k + slope * (m - k);
  }

  lemma PieceBounded(n1: nat, n2: nat, i: nat, j: nat, di: nat, dj: nat, k: nat, m: nat, bound: nat)
    requires k <= m && di <= 1 && dj <= 1
    requires Dev(n1, n2, i, j) <= bound && Dev(n1, n2, i + di * m, j + dj * m) <= bound
    ensures Dev(n1, n2, i + di * k, j + dj * k) <= bound
  {
    Along(n1, n2, i, j, di, dj, k);
    Along(n1, n2, i, j, di, dj, m);
    Straight(i * n2 - j * n1, di * n2 - dj * n1, k, m, bound);
  }

  lemma Along(n1: nat, n2: nat, i: nat, j: nat, di: nat, dj: nat, k: nat)
    ensures (i + di * k) * n2 - (j + dj * k) * n1 == i * n2 - j * n1 + (di * n2 - dj * n1) * k
  {
  }

  ghost predicate BoundedAt(s1: seq<real>, s2: seq<real>, v: real, bound: nat) {
    DevAt(s1, s2, v) <= bound && Kink(s1, s2, v) <= bound
  }

  ghost predicate Bounded(s1: seq<real>, s2: seq<real>, bound: nat) {
    forall v: real :: BoundedAt(s1, s2, v, bound)
  }

  lemma BelowBoth(s1: seq<real>, s2: seq<real>, v: real, b: real)
    requires b == JustBelow(s1 + s2, v)
    ensures DevAt(s1, s2, b) == DevIn(s1, s2, v, 0)
  {
    assert NothingBetween(s1, b, v) by {
      assert forall i :: 0 <= i < |s1| ==> s1[i] == (s1 + s2)[i];
    }
    assert NothingBetween(s2, b, v) by {
      assert forall i :: 0 <= i < |s2| ==> s2[i] == (s1 + s2)[|s1| + i];
    }
    CountJustBelow(s1, v, b);
    CountJustBelow(s2, v, b);
  }

  /** The loop arrives among the copies of `v` where it left the elements below. */
  lemma ArrivalBounded(s1: seq<real>, s2: seq<real>, v: real, bound: nat)
    requires Bounded(s1, s2, bound)
    ensures DevIn(s1, s2, v, 0) <= bound
  {
    var b := JustBelow(s1 + s2, v);
    BelowBoth(s1, s2, v, b);
    assert BoundedAt(s1, s2, b, bound);
  }

  lemma BlockBounded(s1: seq<real>, s2: seq<real>, v: real, k: nat, bound: nat)
    requires Bounded(s1, s2, bound)
    requires k <= Copies(s1, v) || k <= Copies(s2, v)
    ensures DevIn(s1, s2, v, k) <= bound
  {
    assert BoundedAt(s1, s2, v, bound);
    var a, b := Copies(s1, v), Copies(s2, v);
    var m := Lesser(a, b);
    var lt := Place(s1, s2, v, 0);
    var mid := Place(s1, s2, v, m);
    if k <= m {
      ArrivalBounded(s1, s2, v, bound);
      PieceBounded(|s1|, |s2|, lt.0, lt.1, 1, 1, k, m, bound);
    } else if a > b {
      PieceBounded(|s1|, |s2|, mid.0, mid.1, 1, 0, k - m, a - m, bound);
    } else {
      PieceBounded(|s1|, |s2|, mid.0, mid.1, 0, 1, k - m, b - m, bound);
    }
  }

  /** The least value not yet passed. */
  function NextValue(s1: seq<real>, s2: seq<real>, i: nat, j: nat): real
    requires i <= |s1| && j <= |s2| && (i < |s1| || j < |s2|)
  {
    if i == |s1| then s2[j]
    else if j == |s2| then s1[i]
    else if s1[i] <= s2[j] then s1[i] else s2[j]
  }

  /** The pointers stand among the copies of `v`, after `k` steps. */
  ghost predicate StandsAt(s1: seq<real>, s2: seq<real>, i: nat, j: nat, v: real, k: nat) {
    (k <= Copies(s1, v) || k <= Copies(s2, v)) && (i, j) == Place(s1, s2, v, k)
  }

  lemma CountPinned(s: seq<real>, v: real, strict: bool, n: nat)
    requires IsSorted(s) && n <= |s|
    requires n > 0 ==> Inside(s[n - 1], v, strict)
    requires n < |s| ==> !Inside(s[n], v, strict)
    ensures CountTo(s, v, strict) == n
  {
    if n > 0 {
      CountIsIndex(s, v, strict, n - 1);
    }
    if n < |s| {
      CountIsIndex(s, v, strict, n);
    }
  }

  /** Having passed exactly the elements up to `u`, with none left below the next value `v`, is
      having passed exactly the elements below `v`. */
  lemma NextBlock(s: seq<real>, u: real, v: real)
    requires IsSorted(s) && u < v
    requires CountTo(s, u, false) < |s| ==> v <= s[CountTo(s, u, false)]
    ensures CountTo(s, v, true) == CountTo(s, u, false)
    ensures CountTo(s, u, false) < |s| && s[CountTo(s, u, false)] == v ==> Copies(s, v) > 0
  {
    var n := CountTo(s, u, false);
    if n > 0 {
      CountIsIndex(s, u, false, n - 1);
    }
    CountPinned(s, v, true, n);
    if n < |s| {
      CountIsIndex(s, v, false, n);
    }
  }

  lemma NextIsAbove(s1: seq<real>, s2: seq<real>, u: real)
    requires IsSorted(s1) && IsSorted(s2)
    requires CountTo(s1, u, false) < |s1| || CountTo(s2, u, false) < |s2|
    ensures u < NextValue(s1, s2, CountTo(s1, u, false), CountTo(s2, u, false))
  {
    var i, j := CountTo(s1, u, false), CountTo(s2, u, false);
    if i < |s1| {
      CountIsIndex(s1, u, false, i);
    }
    if j < |s2| {
      CountIsIndex(s2, u, false, j);
    }
  }

  /** Where the pointers stand when there is a next step: among the copies of some value that are
      not all passed. */
  lemma Restand(s1: seq<real>, s2: seq<real>, i: nat, j: nat, u: real, l: nat) returns (v: real, k: nat)
    requires IsSorted(s1) && IsSorted(s2)
    requires StandsAt(s1, s2, i, j, u, l) && (i < |s1| || j < |s2|)
    ensures StandsAt(s1, s2, i, j, v, k) && (k < Copies(s1, v) || k < Copies(s2, v))
  {
    v, k := u, l;
    if k >= Copies(s1, v) && k >= Copies(s2, v) {
      v, k := NextValue(s1, s2, i, j), 0;
      NextIsAbove(s1, s2, u);
      NextBlock(s1, u, v);
      NextBlock(s2, u, v);
    }
  }

  lemma {:induction false} NotAbove(s1: seq<real>, s2: seq<real>, i: nat, j: nat, u: real, l: nat, bound: nat)
    requires IsSorted(s1) && IsSorted(s2) && Bounded(s1, s2, bound)
    requires i <= |s1| && j <= |s2| && StandsAt(s1, s2, i, j, u, l)
    ensures MaxFrom(s1, s2, i, j) <= bound
    decreases |s1| + |s2| - i - j
  {
    if i < |s1| || j < |s2| {
      var v, k := Restand(s1, s2, i, j, u, l);
      AdvanceInBlock(s1, s2, v, k);
      BlockBounded(s1, s2, v, k + 1, bound);
      var p := Place(s1, s2, v, k + 1);
      NotAbove(s1, s2, p.0, p.1, v, k + 1, bound);
    }
  }

  /** For sorted samples, a number bounds what the loop finds exactly when it bounds the textbook
      deviation and the kink at every value. */
  lemma MaxExactly(s1: seq<real>, s2: seq<real>, bound: nat)
    requires IsSorted(s1) && IsSorted(s2)
    ensures MaxFrom(s1, s2, 0, 0) <= bound <==> Bounded(s1, s2, bound)
  {
    forall v: real | MaxFrom(s1, s2, 0, 0) <= bound
      ensures BoundedAt(s1, s2, v, bound)
    {
      NotBelow(s1, s2, v);
    }
    if Bounded(s1, s2, bound) && (s1 != [] || s2 != []) {
      var v := NextValue(s1, s2, 0, 0);
      CountPinned(s1, v, true, 0);
      CountPinned(s2, v, true, 0);
      NotAbove(s1, s2, 0, 0, v, 0, bound);
    }
  }

  lemma SortingKeepsOne(s: seq<real>, v: real)
    ensures |Sort(s)| == |s| && Copies(Sort(s), v) == Copies(s, v)
    ensures CountTo(Sort(s), v, true) == CountTo(s, v, true) && CountTo(Sort(s), v, false) == CountTo(s, v, false)
  {
    SortSorts(s);
    SortCounts(s, v, true);
    SortCounts(s, v, false);
  }

  lemma SortingKeeps(sample1: seq<real>, sample2: seq<real>, v: real)
    ensures DevAt(Sort(sample1), Sort(sample2), v) == DevAt(sample1, sample2, v)
    ensures Kink(Sort(sample1), Sort(sample2), v) == Kink(sample1, sample2, v)
  {
    SortingKeepsOne(sample1, v);
    SortingKeepsOne(sample2, v);
    var m := Lesser(Copies(sample1, v), Copies(sample2, v));
    assert Place(Sort(sample1), Sort(sample2), v, m) == Place(sample1, sample2, v, m);
  }

  /** The statistic is the least number that bounds the textbook deviation and the kink at every
      value, read off the unsorted samples. */
  lemma StatisticExactly(sample1: seq<real>, sample2: seq<real>, bound: nat)
    ensures Statistic(sample1, sample2) <= bound <==> Bounded(sample1, sample2, bound)
  {
    SortSorts(sample1);
    SortSorts(sample2);
    MaxExactly(Sort(sample1), Sort(sample2), bound);
    forall v: real
      ensures BoundedAt(sample1, sample2, v, bound) <==> BoundedAt(Sort(sample1), Sort(sample2), v, bound)
    {
      SortingKeeps(sample1, sample2, v);
    }
  }

  // ---- What follows ----

  /** sup |F1 - F2|, scaled. */
  ghost predicate IsSupremum(sample1: seq<real>, sample2: seq<real>, d: nat) {
    (forall v: real :: DevAt(sample1, sample2, v) <= d) &&
    (exists v: real :: DevAt(sample1, sample2, v) == d)
  }

  ghost predicate KinkCovered(sample1: seq<real>, sample2: seq<real>, v: real) {
    exists w: real :: Kink(sample1, sample2, v) <= DevAt(sample1, sample2, w)
  }

  lemma NeverTooSmall(sample1: seq<real>, sample2: seq<real>, v: real)
    ensures DevAt(sample1, sample2, v) <= Statistic(sample1, sample2)
    ensures Kink(sample1, sample2, v) <= Statistic(sample1, sample2)
  {
    StatisticExactly(sample1, sample2, Statistic(sample1, sample2));
    assert BoundedAt(sample1, sample2, v, Statistic(sample1, sample2));
  }

  /** The statistic is the textbook one exactly when no kink exceeds every textbook deviation. */
  lemma ExactWhenKinksCovered(sample1: seq<real>, sample2: seq<real>)
    ensures IsSupremum(sample1, sample2, Statistic(sample1, sample2)) <==>
            forall v: real :: KinkCovered(sample1, sample2, v)
  {
    var d := Statistic(sample1, sample2);
    forall v: real | IsSupremum(sample1, sample2, d)
      ensures KinkCovered(sample1, sample2, v)
    {
      NeverTooSmall(sample1, sample2, v);
    }
    if forall v: real :: KinkCovered(sample1, sample2, v) {
      AttainedWhenCovered(sample1, sample2);
    }
  }

  lemma AttainedWhenCovered(sample1: seq<real>, sample2: seq<real>)
    requires forall v: real :: KinkCovered(sample1, sample2, v)
    ensures IsSupremum(sample1, sample2, Statistic(sample1, sample2))
  {
    var d := Statistic(sample1, sample2);
    forall v: real
      ensures DevAt(sample1, sample2, v) <= d
    {
      NeverTooSmall(sample1, sample2, v);
    }
    if d == 0 {
      assert DevAt(sample1, sample2, 0.0) == d;
    } else {
      StatisticExactly(sample1, sample2, d - 1);
      var v: real :| !BoundedAt(sample1, sample2, v, d - 1);
      if DevAt(sample1, sample2, v) != d {
        assert KinkCovered(sample1, sample2, v);
      }
    }
  }

  lemma KinkWithoutTies(s1: seq<real>, s2: seq<real>, v: real)
    requires Copies(s1, v) == 0 || Copies(s2, v) == 0 || Copies(s1, v) == Copies(s2, v)
    ensures Kink(s1, s2, v) == DevIn(s1, s2, v, 0) || Kink(s1, s2, v) == DevAt(s1, s2, v)
  {
    if Copies(s1, v) == Copies(s2, v) {
      assert Place(s1, s2, v, Copies(s1, v)) == (CountTo(s1, v, false), CountTo(s2, v, false));
    }
  }

  lemma KinkOfEqualSizes(s1: seq<real>, s2: seq<real>, v: real)
    requires |s1| == |s2|
    ensures Kink(s1, s2, v) == DevIn(s1, s2, v, 0)
  {
    var lt := Place(s1, s2, v, 0);
    var m := Lesser(Copies(s1, v), Copies(s2, v));
    assert Place(s1, s2, v, m) == (lt.0 + m, lt.1 + m);
    ShiftedDev(|s1|, lt.0, lt.1, m);
  }

  lemma ShiftedDev(n: nat, i: nat, j: nat, m: nat)
    ensures Dev(n, n, i + m, j + m) == Dev(n, n, i, j)
  {
    Along(n, n, i, j, 1, 1, m);
  }

  /** With samples of one size, or when every shared value has as many copies in each, the
      statistic is the textbook one. */
  lemma ExactForEqualSizesOrCopies(sample1: seq<real>, sample2: seq<real>)
    requires |sample1| == |sample2| ||
             forall v: real ::
               Copies(sample1, v) == 0 || Copies(sample2, v) == 0 || Copies(sample1, v) == Copies(sample2, v)
    ensures IsSupremum(sample1, sample2, Statistic(sample1, sample2))
  {
    forall v: real
      ensures KinkCovered(sample1, sample2, v)
    {
      var b := JustBelow(sample1 + sample2, v);
      BelowBoth(sample1, sample2, v, b);
      if |sample1| == |sample2| {
        KinkOfEqualSizes(sample1, sample2, v);
      } else {
        KinkWithoutTies(sample1, sample2, v);
      }
      assert Kink(sample1, sample2, v) <= DevAt(sample1, sample2, b) ||
             Kink(sample1, sample2, v) <= DevAt(sample1, sample2, v);
    }
    AttainedWhenCovered(sample1, sample2);
  }

  /** Samples of different sizes with a value that one repeats more often than the other can
      report a difference between distributions that agree everywhere. */
  lemma TiesCanMislead()
    ensures Statistic([1.0, 1.0], [1.0]) == 1
    ensures IsSupremum([1.0, 1.0], [1.0], 0)
  {
    var s1, s2 := [1.0, 1.0], [1.0];
    assert s1[1..] == s2 && s2[1..] == [];
    forall v: real
      ensures DevAt(s1, s2, v) == 0
    {
    }
    assert DevAt(s1, s2, 0.0) == 0;
    assert Kink(s1, s2, 1.0) == 1;
    NeverTooSmall(s1, s2, 1.0);
    assert Sort(s1) == s1 && Sort(s2) == s2;
    assert MaxFrom(s1, s2, 2, 1) == 0;
    assert MaxFrom(s1, s2, 1, 1) == 0;
    assert MaxFrom(s1, s2, 0, 0) == 1;
  }

  lemma Mirrored(sample1: seq<real>, sample2: seq<real>, bound: nat)
    requires Bounded(sample1, sample2, bound)
    ensures Bounded(sample2, sample1, bound)
  {
    forall v: real
      ensures BoundedAt(sample2, sample1, v, bound)
    {
      assert BoundedAt(sample1, sample2, v, bound);
    }
  }

  lemma StatisticIsSymmetric(sample1: seq<real>, sample2: seq<real>)
    ensures Statistic(sample1, sample2) == Statistic(sample2, sample1)
  {
    StatisticExactly(sample1, sample2, Statistic(sample1, sample2));
    StatisticExactly(sample2, sample1, Statistic(sample1, sample2));
    StatisticExactly(sample1, sample2, Statistic(sample2, sample1));
    StatisticExactly(sample2, sample1, Statistic(sample2, sample1));
    Mirrored(sample1, sample2, Statistic(sample1, sample2));
    Mirrored(sample2, sample1, Statistic(sample2, sample1));
  }

  lemma DevInRange(n1: nat, n2: nat, i: nat, j: nat)
    requires i <= n1 && j <= n2
    ensures Dev(n1, n2, i, j) <= n1 * n2
  {
    Scaling(n2, i, n1);
    Scaling(n1, j, n2);
  }

  /** Scaled back, the statistic lies between 0 and 1. */
  lemma StatisticInRange(sample1: seq<real>, sample2: seq<real>)
    ensures Statistic(sample1, sample2) <= |sample1| * |sample2|
  {
    var bound := |sample1| * |sample2|;
    forall v: real
      ensures BoundedAt(sample1, sample2, v, bound)
    {
      DevInRange(|sample1|, |sample2|, CountTo(sample1, v, false), CountTo(sample2, v, false));
      var p := Place(sample1, sample2, v, Lesser(Copies(sample1, v), Copies(sample2, v)));
      DevInRange(|sample1|, |sample2|, p.0, p.1);
    }
    StatisticExactly(sample1, sample2, bound);
  }
}
