/** Distribution statistics of a metric stream: the order statistic used for
    p05/p50/p95 (`percentile`, scripts/dev/analyze-video.py:127-140) and the
    minimum, maximum, mean and sorting that the summary report applies to the
    luma and motion samples. Samples are mathematical reals; the NaN that the
    script returns for an empty sample is `None`. */
module Stats {
  import opened Wrappers

  predicate IsSorted(s: seq<real>) {
    forall i, j :: 0 <= i < j < |s| ==> s[i] <= s[j]
  }

  /** Inserts `x` into an ascending sequence, keeping it ascending. */
  function Insert(x: real, s: seq<real>): (r: seq<real>)
    requires IsSorted(s)
    ensures IsSorted(r)
    ensures |r| == |s| + 1
    ensures r[0] == x || (s != [] && r[0] == s[0])
    ensures multiset(r) == multiset(s) + multiset{x}
  {
    if s == [] then [x]
    else if x <= s[0] then
      SortedCons(x, s);
      [x] + s
    else
      var rest := Insert(x, s[1..]);
      assert s == [s[0]] + s[1..];
      SortedCons(s[0], rest);
      [s[0]] + rest
  }

  /** Putting a head no larger than the first element in front of an
      ascending sequence keeps it ascending. */
  lemma SortedCons(h: real, t: seq<real>)
    requires IsSorted(t) && (t == [] || h <= t[0])
    ensures IsSorted([h] + t)
  {
    var r := [h] + t;
    forall i, j | 0 <= i < j < |r|
      ensures r[i] <= r[j]
    {
      if i == 0 {
        assert r[j] == t[j - 1];
        assert t[0] <= t[j - 1];
      } else {
        assert r[i] == t[i - 1] && r[j] == t[j - 1];
      }
    }
  }

  /** Python's `sorted` on a list of reals: an ascending permutation. */
  function Sort(s: seq<real>): (r: seq<real>)
    ensures IsSorted(r)
    ensures multiset(r) == multiset(s)
  {
    if s == [] then []
    else
      assert s == [s[0]] + s[1..];
      Insert(s[0], Sort(s[1..]))
  }

  /** Python's `min` of a non-empty list. */
  function SeqMin(s: seq<real>): (r: real)
    requires |s| > 0
    ensures r in s
    ensures forall i :: 0 <= i < |s| ==> r <= s[i]
  {
    if |s| == 1 then s[0]
    else
      var m := SeqMin(s[1..]);
      assert forall i :: 1 <= i < |s| ==> s[i] == s[1..][i - 1];
      if s[0] <= m then s[0] else m
  }

  /** Python's `max` of a non-empty list. */
  function SeqMax(s: seq<real>): (r: real)
    requires |s| > 0
    ensures r in s
    ensures forall i :: 0 <= i < |s| ==> s[i] <= r
  {
    if |s| == 1 then s[0]
    else
      var m := SeqMax(s[1..]);
      assert forall i :: 1 <= i < |s| ==> s[i] == s[1..][i - 1];
      if s[0] >= m then s[0] else m
  }

  /** Python's `sum` of a list of reals. */
  function Sum(s: seq<real>): real {
    if s == [] then 0.0 else s[0] + Sum(s[1..])
  }

  /** Every element lies in `[lo, hi]`, so the sum lies between `|s|*lo`
      and `|s|*hi`. */
  lemma {:induction false} SumBounds(s: seq<real>, lo: real, hi: real)
    requires forall i :: 0 <= i < |s| ==> lo <= s[i] <= hi
    ensures |s| as real * lo <= Sum(s) <= |s| as real * hi
  {
    if s != [] {
      assert forall i :: 0 <= i < |s| - 1 ==> s[1..][i] == s[i + 1];
      SumBounds(s[1..], lo, hi);
      assert |s| as real * lo == lo + (|s| - 1) as real * lo;
      assert |s| as real * hi == hi + (|s| - 1) as real * hi;
    }
  }

  /** Dividing bounds `n * lo <= x <= n * hi` by a positive `n`. */
  lemma DivideBounds(x: real, n: real, lo: real, hi: real)
    requires n > 0.0 && n * lo <= x <= n * hi
    ensures lo <= x / n <= hi
  {
    var q := x / n;
    assert q * n == x;
    assert (q - lo) * n == x - n * lo;
    assert (hi - q) * n == n * hi - x;
  }

  /** The arithmetic mean of a non-empty sample whose elements lie in
      `[lo, hi]` lies in `[lo, hi]` too. */
  lemma MeanWithin(s: seq<real>, lo: real, hi: real)
    requires |s| > 0
    requires forall i :: 0 <= i < |s| ==> lo <= s[i] <= hi
    ensures lo <= Sum(s) / |s| as real <= hi
  {
    var total, n := Sum(s), |s| as real;
    SumBounds(s, lo, hi);
    assert n * lo <= total <= n * hi;
    DivideBounds(total, n, lo, hi);
  }

  /** The fractional rank `(len - 1) * (p / 100)` of the percentile. */
  function Rank(n: nat, p: real): real {
    (n - 1) as real * (p / 100.0)
  }

  /** Python's `math.ceil`, built from the floor. */
  function Ceil(x: real): (r: int)
    ensures x <= r as real < x + 1.0
  {
    if x.Floor as real == x then x.Floor else x.Floor + 1
  }

  /** `v` lies between `a` and `b`, whichever of the two is smaller. */
  predicate Between(v: real, a: real, b: real) {
    (a <= v <= b) || (b <= v <= a)
  }

  /** For `0 <= q <= 1`, scaling `a >= 0` by `q` stays within `[0, a]`, and
      strictly below `a` when `q < 1` and `a > 0`. */
  lemma ScaleWithin(a: real, q: real)
    requires 0.0 <= a && 0.0 <= q <= 1.0
    ensures 0.0 <= a * q
    ensures a * q <= a
    ensures q < 1.0 && a > 0.0 ==> a * q < a
  {
    NonNegativeProduct(a, q);
    NonNegativeProduct(a, 1.0 - q);
    assert a - a * q == a * (1.0 - q);
    if q < 1.0 && a > 0.0 {
      PositiveProduct(a, 1.0 - q);
    }
  }

  /** For a rank strictly inside `(0, 100)` percent, the fractional rank lies
      in `[0, n - 1]`. */
  lemma RankInRange(n: nat, p: real)
    requires n > 0 && 0.0 <= p <= 100.0
    ensures 0.0 <= Rank(n, p) <= (n - 1) as real
  {
    var q := p / 100.0;
    assert 0.0 <= q <= 1.0;
    assert Rank(n, p) == (n - 1) as real * q;
    ScaleWithin((n - 1) as real, q);
  }

  /** The fractional rank grows with `p`. */
  lemma RankMonotone(n: nat, p1: real, p2: real)
    requires n > 0 && p1 <= p2
    ensures Rank(n, p1) <= Rank(n, p2)
  {
    var d := (p2 - p1) / 100.0;
    assert Rank(n, p2) - Rank(n, p1) == (n - 1) as real * d;
    assert 0.0 <= (n - 1) as real * d;
  }

  lemma NonNegativeProduct(a: real, b: real)
    requires 0.0 <= a && 0.0 <= b
    ensures 0.0 <= a * b
  {
  }

  lemma PositiveProduct(a: real, b: real)
    requires 0.0 < a && 0.0 < b
    ensures 0.0 < a * b
  {
  }

  /** The distances of an interpolated value to its two end points. */
  lemma InterpolationGaps(a: real, b: real, w: real)
    ensures (a * (1.0 - w) + b * w) - a == (b - a) * w
    ensures b - (a * (1.0 - w) + b * w) == (b - a) * (1.0 - w)
  {
  }

  lemma NonPositiveProduct(a: real, b: real)
    requires a <= 0.0 && 0.0 <= b
    ensures a * b <= 0.0
  {
  }

  /** Linear interpolation with weight `0 <= w <= 1` lands between its end
      points. */
  lemma InterpolationBetween(a: real, b: real, w: real)
    requires 0.0 <= w <= 1.0
    ensures Between(a * (1.0 - w) + b * w, a, b)
  {
    InterpolationGaps(a, b, w);
    if a <= b {
      NonNegativeProduct(b - a, w);
      NonNegativeProduct(b - a, 1.0 - w);
    } else {
      NonPositiveProduct(b - a, w);
      NonPositiveProduct(b - a, 1.0 - w);
    }
  }

  /** The value at fractional rank `pos` (lines 134-140): the element itself
      when `pos` is whole, otherwise the linear interpolation between the
      neighbours `s[floor(pos)]` and `s[ceil(pos)]`, weighted by the
      fractional part. */
  function AtRank(s: seq<real>, pos: real): (r: real)
    requires 0.0 <= pos <= (|s| - 1) as real
    ensures 0 <= pos.Floor <= Ceil(pos) <= pos.Floor + 1 && Ceil(pos) < |s|
    ensures Between(r, s[pos.Floor], s[Ceil(pos)])
  {
    var lo := pos.Floor;
    var hi := Ceil(pos);
    if lo == hi then s[lo]
    else
      var w := pos - lo as real;
      InterpolationBetween(s[lo], s[hi], w);
      s[lo] * (1.0 - w) + s[hi] * w
  }

  /** For a sorted sample the value at a rank grows with the rank. */
  lemma AtRankMonotone(s: seq<real>, pos1: real, pos2: real)
    requires IsSorted(s)
    requires 0.0 <= pos1 <= pos2 <= (|s| - 1) as real
    ensures AtRank(s, pos1) <= AtRank(s, pos2)
  {
    var lo1, hi1 := pos1.Floor, Ceil(pos1);
    var lo2, hi2 := pos2.Floor, Ceil(pos2);
    if lo1 < lo2 {
      // the first value is at most s[hi1] <= s[lo2], at most the second
      assert hi1 <= lo2;
    } else if lo1 == hi1 {
      // the first value is s[lo1] = s[lo2], at most the second
    } else {
      // both ranks lie strictly inside the same unit interval
      assert lo1 == lo2 && hi1 == hi2;
      var a, b := s[lo1], s[hi1];
      var w1, w2 := pos1 - lo1 as real, pos2 - lo1 as real;
      assert AtRank(s, pos1) == a + (b - a) * w1;
      assert AtRank(s, pos2) == a + (b - a) * w2;
      assert (b - a) * w2 - (b - a) * w1 == (b - a) * (w2 - w1);
      NonNegativeProduct(b - a, w2 - w1);
    }
  }

  /** The linear-interpolation percentile of an (ascending) sample; `None`
      stands for the NaN the script returns on an empty sample. Whenever
      `0 < p < 100` the result lies between the two neighbours `s[lo]`,
      `s[hi]` of the fractional rank, which are in bounds and adjacent. */
  function Percentile(s: seq<real>, p: real): (r: Option<real>)
    ensures r.None? <==> s == []
    ensures s != [] && p <= 0.0 ==> r == Some(s[0])
    ensures s != [] && p >= 100.0 ==> r == Some(s[|s| - 1])
    ensures s != [] && 0.0 < p < 100.0 ==>
              var lo, hi := Rank(|s|, p).Floor, Ceil(Rank(|s|, p));
              0 <= lo <= hi <= lo + 1 && hi < |s| && Between(r.value, s[lo], s[hi])
  {
    if s == [] then None
    else if p <= 0.0 then Some(s[0])
    else if p >= 100.0 then Some(s[|s| - 1])
    else
      RankInRange(|s|, p);
      Some(AtRank(s, Rank(|s|, p)))
  }

  /** When the fractional rank is a whole number `k`, the percentile is
      exactly the `k`-th element, with no interpolation. */
  lemma PercentileAtWholeRank(s: seq<real>, p: real, k: int)
    requires s != [] && 0.0 <= p <= 100.0
    requires Rank(|s|, p) == k as real
    ensures 0 <= k < |s|
    ensures Percentile(s, p) == Some(s[k])
  {
    RankInRange(|s|, p);
    if p == 100.0 {
      assert Rank(|s|, p) == (|s| - 1) as real;
    }
  }

  /** For a sorted sample the percentile lies between its first and last
      element. */
  lemma PercentileWithinSorted(s: seq<real>, p: real)
    requires IsSorted(s) && s != []
    ensures s[0] <= Percentile(s, p).value <= s[|s| - 1]
  {
  }

  /** For a sorted sample the percentile is monotone in `p`. */
  lemma PercentileMonotone(s: seq<real>, p1: real, p2: real)
    requires IsSorted(s) && s != []
    requires p1 <= p2
    ensures Percentile(s, p1).value <= Percentile(s, p2).value
  {
    PercentileWithinSorted(s, p1);
    PercentileWithinSorted(s, p2);
    if 0.0 < p1 && p2 < 100.0 {
      RankInRange(|s|, p1);
      RankInRange(|s|, p2);
      RankMonotone(|s|, p1, p2);
      AtRankMonotone(s, Rank(|s|, p1), Rank(|s|, p2));
    }
  }

  /** The six statistics the summary report gives for a sample. */
  datatype SampleStats = SampleStats(min: real, max: real, mean: real, p05: real, p50: real, p95: real)

  /** Every element of `Sort(s)` is an element of `s`. */
  lemma SortKeepsElements(s: seq<real>, i: int)
    requires 0 <= i < |Sort(s)|
    ensures Sort(s)[i] in s
  {
    assert Sort(s)[i] in multiset(Sort(s));
  }

  /** The statistics of a non-empty sample (lines 274-279 and 283-288): the
      minimum and maximum are attained and bound every sample, and the mean
      and the three percentiles lie between them in order. */
  function StatsOf(s: seq<real>): (r: SampleStats)
    requires |s| > 0
    ensures r.min in s && r.max in s
    ensures forall i :: 0 <= i < |s| ==> r.min <= s[i] <= r.max
    ensures r.min <= r.mean <= r.max
    ensures r.min <= r.p05 <= r.p50 <= r.p95 <= r.max
  {
    var sorted := Sort(s);
    assert |sorted| == |multiset(s)| == |s|;
    SortKeepsElements(s, 0);
    SortKeepsElements(s, |s| - 1);
    PercentileWithinSorted(sorted, 5.0);
    PercentileWithinSorted(sorted, 95.0);
    PercentileMonotone(sorted, 5.0, 50.0);
    PercentileMonotone(sorted, 50.0, 95.0);
    MeanWithin(s, SeqMin(s), SeqMax(s));
    SampleStats(
      SeqMin(s), SeqMax(s), Sum(s) / |s| as real,
      Percentile(sorted, 5.0).value, Percentile(sorted, 50.0).value, Percentile(sorted, 95.0).value)
  }

  /** The worked example: the median of `[1, 2, 3, 4]` is 2.5. */
  lemma MedianOfFirstFour()
    ensures Percentile([1.0, 2.0, 3.0, 4.0], 50.0) == Some(2.5)
  {
    assert Rank(4, 50.0) == 1.5;
    assert (1.5).Floor == 1;
  }
}
