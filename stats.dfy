/** The exact statistics behind the feature row, over real numbers: sum,
    mean, maximum, minimum, a sorted copy, numpy's linear-interpolation
    percentile and median, the median absolute deviation and the sample
    (n - 1) variance. Floating-point rounding is not modelled. */
module Stats {

  function Sum(s: seq<real>): real
  {
    if s == [] then 0.0 else s[0] + Sum(s[1..])
  }

  /** np.mean */
  function Mean(s: seq<real>): real
    requires |s| > 0
  {
    Sum(s) / |s| as real
  }

  /** np.max: an element of s that no element exceeds. */
  function Max(s: seq<real>): (m: real)
    requires |s| > 0
    ensures m in s
    ensures forall i :: 0 <= i < |s| ==> s[i] <= m
  {
    if |s| == 1 then s[0]
    else
      var m := Max(s[1..]);
      if s[0] >= m then s[0] else m
  }

  /** The smallest element of s. */
  function Min(s: seq<real>): (m: real)
    requires |s| > 0
    ensures m in s
    ensures forall i :: 0 <= i < |s| ==> m <= s[i]
  {
    if |s| == 1 then s[0]
    else
      var m := Min(s[1..]);
      if s[0] <= m then s[0] else m
  }

  ghost predicate Sorted(s: seq<real>)
  {
    forall i, j :: 0 <= i < j < |s| ==> s[i] <= s[j]
  }

  /** Insert x into a sorted sequence, keeping it sorted. */
  function Insert(x: real, t: seq<real>): (r: seq<real>)
    requires Sorted(t)
    ensures Sorted(r)
    ensures multiset(r) == multiset(t) + multiset{x}
  {
    if t == [] then [x]
    else if x <= t[0] then
      assert multiset([x] + t) == multiset{x} + multiset(t);
      ConsSorted(x, t);
      [x] + t
    else
      var rest := Insert(x, t[1..]);
      assert t == [t[0]] + t[1..];
      assert multiset([t[0]] + rest) == multiset{t[0]} + multiset(rest);
      BoundedByHead(t);
      LowerBoundKept(t[0], t[1..], x, rest);
      ConsSorted(t[0], rest);
      [t[0]] + rest
  }

  lemma BoundedByHead(t: seq<real>)
    requires Sorted(t) && |t| > 0
    ensures forall i :: 0 <= i < |t| - 1 ==> t[0] <= t[1..][i]
  {
  }

  /** Prepending a lower bound keeps a sequence sorted. */
  lemma ConsSorted(h: real, t: seq<real>)
    requires Sorted(t) && forall i :: 0 <= i < |t| ==> h <= t[i]
    ensures Sorted([h] + t)
  {
  }

  /** A lower bound of t and of x bounds every rearrangement of t plus x. */
  lemma LowerBoundKept(lo: real, t: seq<real>, x: real, r: seq<real>)
    requires lo <= x && forall i :: 0 <= i < |t| ==> lo <= t[i]
    requires multiset(r) == multiset(t) + multiset{x}
    ensures forall i :: 0 <= i < |r| ==> lo <= r[i]
  {
    forall i | 0 <= i < |r| ensures lo <= r[i] {
      assert r[i] in multiset(r);
      if r[i] != x {
        assert r[i] in multiset(t);
        var k :| 0 <= k < |t| && t[k] == r[i];
      }
    }
  }

  /** The sorted copy np.sort / np.percentile work on: a sorted
      rearrangement of s. */
  function Sort(s: seq<real>): (t: seq<real>)
    ensures Sorted(t)
    ensures multiset(t) == multiset(s)
    ensures |t| == |s|
  {
    if s == [] then []
    else
      assert s == [s[0]] + s[1..];
      Insert(s[0], Sort(s[1..]))
  }

  /** A sorted rearrangement is unique: any sorted sequence with the same
      elements as s is Sort(s). */
  lemma {:induction false} SortedPermutationUnique(a: seq<real>, b: seq<real>)
    requires Sorted(a) && Sorted(b) && multiset(a) == multiset(b)
    ensures a == b
    decreases |a|
  {
    assert |a| == |multiset(a)| == |multiset(b)| == |b|;
    if a != [] {
      SortedHeadsAgree(a, b);
      TailsPermuted(a, b);
      SortedPermutationUnique(a[1..], b[1..]);
      assert a == [a[0]] + a[1..] && b == [b[0]] + b[1..];
    }
  }

  /** Two sorted rearrangements start with the same (least) element. */
  lemma SortedHeadsAgree(a: seq<real>, b: seq<real>)
    requires Sorted(a) && Sorted(b) && multiset(a) == multiset(b) && |a| > 0 && |b| > 0
    ensures a[0] == b[0]
  {
    assert a[0] in multiset(b) && b[0] in multiset(a) by {
      assert a[0] in multiset(a) && b[0] in multiset(b);
    }
    var i :| 0 <= i < |b| && b[i] == a[0];
    var j :| 0 <= j < |a| && a[j] == b[0];
    assert b[0] <= b[i] && a[0] <= a[j];
  }

  /** Removing equal heads from two rearrangements leaves rearrangements. */
  lemma TailsPermuted(a: seq<real>, b: seq<real>)
    requires |a| > 0 && |b| > 0 && a[0] == b[0] && multiset(a) == multiset(b)
    ensures multiset(a[1..]) == multiset(b[1..])
  {
    assert a == [a[0]] + a[1..] && b == [b[0]] + b[1..];
    assert multiset(a) == multiset{a[0]} + multiset(a[1..]);
    assert multiset(b) == multiset{b[0]} + multiset(b[1..]);
    forall x ensures multiset(a[1..])[x] == multiset(b[1..])[x] {
      assert multiset(a)[x] == multiset(b)[x];
    }
  }

  lemma SortIsUnique(s: seq<real>, t: seq<real>)
    requires Sorted(t) && multiset(t) == multiset(s)
    ensures Sort(s) == t
  {
    SortedPermutationUnique(Sort(s), t);
  }

  /** Rearranged sequences hold the same values. */
  lemma SameElements(s: seq<real>, t: seq<real>, x: real)
    requires multiset(t) == multiset(s)
    ensures x in t <==> x in s
  {
    assert x in t <==> x in multiset(t);
    assert x in s <==> x in multiset(s);
  }

  /** The ends of the sorted copy are the minimum and the maximum. */
  lemma SortEnds(s: seq<real>)
    requires |s| > 0
    ensures Sort(s)[0] == Min(s) && Sort(s)[|s| - 1] == Max(s)
  {
    SortedFirstIsMin(s, Sort(s));
    SortedLastIsMax(s, Sort(s));
  }

  lemma SortedFirstIsMin(s: seq<real>, t: seq<real>)
    requires |s| > 0 && Sorted(t) && multiset(t) == multiset(s)
    ensures |t| == |s| && t[0] == Min(s)
  {
    assert |t| == |multiset(t)| == |multiset(s)| == |s|;
    SameElements(s, t, t[0]);
    SameElements(s, t, Min(s));
    var k :| 0 <= k < |t| && t[k] == Min(s);
    assert t[0] <= t[k];
  }

  lemma SortedLastIsMax(s: seq<real>, t: seq<real>)
    requires |s| > 0 && Sorted(t) && multiset(t) == multiset(s)
    ensures |t| == |s| && t[|t| - 1] == Max(s)
  {
    assert |t| == |multiset(t)| == |multiset(s)| == |s|;
    SameElements(s, t, t[|t| - 1]);
    SameElements(s, t, Max(s));
    var k :| 0 <= k < |t| && t[k] == Max(s);
    assert t[k] <= t[|t| - 1];
  }

  // ---------------------------------------------------------------------
  // Linear-interpolation percentile

  /** The virtual index (n - 1) * p / 100 of np.percentile's linear method,
      split into its whole part `lo` and its hundredths `frac`. */
  function VirtualIndex(n: nat, p: nat): (r: (nat, nat))
    requires n > 0 && p <= 100
    ensures r.0 < n && r.1 < 100
    ensures r.0 * 100 + r.1 == (n - 1) * p
    ensures r.0 == n - 1 ==> r.1 == 0
  {
    var h := (n - 1) * p;
    MulMonotone(n - 1, p, 100);
    (h / 100, h % 100)
  }

  lemma MulMonotone(a: nat, p: nat, q: nat)
    requires p <= q
    ensures a * p <= a * q
  {
    assert a * q == a * p + a * (q - p);
  }

  /** Linear interpolation at virtual index lo + frac / 100 of a sorted
      sequence; the upper neighbour is clipped to the last element. */
  function Interpolate(t: seq<real>, lo: nat, frac: nat): real
    requires lo < |t| && frac < 100
  {
    var hi := if lo + 1 < |t| then lo + 1 else lo;
    t[lo] + (frac as real / 100.0) * (t[hi] - t[lo])
  }

  /** np.percentile(s, p) with the default linear method: interpolate
      between the two sorted neighbours of the virtual index. */
  function Percentile(s: seq<real>, p: nat): real
    requires |s| > 0 && p <= 100
  {
    var vi := VirtualIndex(|s|, p);
    Interpolate(Sort(s), vi.0, vi.1)
  }

  /** np.median: the middle element of the sorted copy, or the mean of the
      two middle elements when the length is even. */
  function Median(s: seq<real>): real
    requires |s| > 0
  {
    var t := Sort(s);
    var n := |t|;
    if n % 2 == 1 then t[n / 2] else (t[n / 2 - 1] + t[n / 2]) / 2.0
  }

  lemma InterpolationBounds(a: real, b: real, f: real)
    requires a <= b && 0.0 <= f <= 1.0
    ensures a <= a + f * (b - a) <= b
  {
    assert f * (b - a) <= 1.0 * (b - a);
  }

  /** On a sorted sequence, an interpolated value lies between its two
      neighbours. */
  lemma InterpolateBetween(t: seq<real>, lo: nat, frac: nat)
    requires Sorted(t) && lo < |t| && frac < 100
    ensures t[lo] <= Interpolate(t, lo, frac)
    ensures lo + 1 < |t| ==> Interpolate(t, lo, frac) <= t[lo + 1]
    ensures lo + 1 == |t| ==> Interpolate(t, lo, frac) == t[lo]
  {
    var hi := if lo + 1 < |t| then lo + 1 else lo;
    assert t[lo] <= t[hi];
    InterpolationBounds(t[lo], t[hi], frac as real / 100.0);
  }

  /** Every percentile lies between the minimum and the maximum. */
  lemma PercentileBounds(s: seq<real>, p: nat)
    requires |s| > 0 && p <= 100
    ensures Min(s) <= Percentile(s, p) <= Max(s)
  {
    var vi := VirtualIndex(|s|, p);
    InterpolateWithin(Sort(s), vi.0, vi.1);
    SortEnds(s);
  }

  /** On a sorted sequence every interpolated value lies between the ends. */
  lemma InterpolateWithin(t: seq<real>, lo: nat, frac: nat)
    requires Sorted(t) && lo < |t| && frac < 100
    ensures t[0] <= Interpolate(t, lo, frac) <= t[|t| - 1]
  {
    InterpolateBetween(t, lo, frac);
    assert t[0] <= t[lo];
    if lo + 1 < |t| {
      assert t[lo + 1] <= t[|t| - 1];
    }
  }

  /** Interpolation moves forward with the virtual index. */
  lemma InterpolateMonotone(t: seq<real>, lo1: nat, f1: nat, lo2: nat, f2: nat)
    requires Sorted(t) && lo1 < |t| && f1 < 100 && lo2 < |t| && f2 < 100
    requires lo1 < lo2 || (lo1 == lo2 && f1 <= f2)
    ensures Interpolate(t, lo1, f1) <= Interpolate(t, lo2, f2)
  {
    InterpolateBetween(t, lo1, f1);
    InterpolateBetween(t, lo2, f2);
    if lo1 == lo2 {
      var hi := if lo1 + 1 < |t| then lo1 + 1 else lo1;
      var d := t[hi] - t[lo1];
      assert d >= 0.0;
      assert (f1 as real / 100.0) * d <= (f2 as real / 100.0) * d;
    } else {
      assert t[lo1 + 1] <= t[lo2];
    }
  }

  /** Percentiles of one sequence never decrease as p grows. */
  lemma PercentileMonotone(s: seq<real>, p: nat, q: nat)
    requires |s| > 0 && p <= q <= 100
    ensures Percentile(s, p) <= Percentile(s, q)
  {
    var n := |s|;
    var v1 := VirtualIndex(n, p);
    var v2 := VirtualIndex(n, q);
    MulMonotone(n - 1, p, q);
    InterpolateMonotone(Sort(s), v1.0, v1.1, v2.0, v2.1);
  }

  /** The 50th percentile is the median. */
  lemma MedianIsPercentile50(s: seq<real>)
    requires |s| > 0
    ensures Percentile(s, 50) == Median(s)
  {
    var n := |s|;
    var vi := VirtualIndex(n, 50);
    if n % 2 == 1 {
      assert (n - 1) * 50 == (n / 2) * 100;
      assert vi == (n / 2, 0);
    } else {
      assert (n - 1) * 50 == (n / 2 - 1) * 100 + 50;
      assert vi == (n / 2 - 1, 50);
    }
  }

  lemma MedianBounds(s: seq<real>)
    requires |s| > 0
    ensures Min(s) <= Median(s) <= Max(s)
  {
    MedianIsPercentile50(s);
    PercentileBounds(s, 50);
  }

  // ---------------------------------------------------------------------
  // Median absolute deviation

  function Abs(x: real): real { if x < 0.0 then -x else x }

  /** np.abs(data - m) */
  function AbsDeviations(s: seq<real>, m: real): (d: seq<real>)
    ensures |d| == |s|
    ensures forall i :: 0 <= i < |s| ==> d[i] == Abs(s[i] - m)
  {
    seq(|s|, i requires 0 <= i < |s| => Abs(s[i] - m))
  }

  /** _compute_mad: the median of the absolute deviations from the median,
      without any scale factor. */
  function Mad(s: seq<real>): real
    requires |s| > 0
  {
    Median(AbsDeviations(s, Median(s)))
  }

  lemma MadNonNegative(s: seq<real>)
    requires |s| > 0
    ensures Mad(s) >= 0.0
  {
    var d := AbsDeviations(s, Median(s));
    MedianBounds(d);
    assert Min(d) >= 0.0 by {
      assert Min(d) in d;
    }
  }

  /** The median of a constant sequence is that constant. */
  lemma MedianOfConstant(s: seq<real>, c: real)
    requires |s| > 0 && forall i :: 0 <= i < |s| ==> s[i] == c
    ensures Median(s) == c
  {
    MedianBounds(s);
    assert Min(s) == c && Max(s) == c by {
      assert Min(s) in s && Max(s) in s;
    }
  }

  /** A sequence of equal values has no dispersion. */
  lemma MadOfConstant(s: seq<real>, c: real)
    requires |s| > 0 && forall i :: 0 <= i < |s| ==> s[i] == c
    ensures Mad(s) == 0.0
  {
    MedianOfConstant(s, c);
    MedianOfConstant(AbsDeviations(s, c), 0.0);
  }

  /** The worked example: lengths [40, 40, 1500, 40, 1500] have median 40,
      deviations [0, 0, 1460, 0, 1460], and so a MAD of 0. */
  lemma MadExample()
    ensures Median([40.0, 40.0, 1500.0, 40.0, 1500.0]) == 40.0
    ensures Mad([40.0, 40.0, 1500.0, 40.0, 1500.0]) == 0.0
  {
    MadOfTwoClusters(40.0, 1500.0);
  }

  /** Three copies of a and two of b, in this order and in either order of
      size: the median is a and so is every deviation of the three copies,
      hence a MAD of 0. */
  lemma MadOfTwoClusters(a: real, b: real)
    ensures Median([a, a, b, a, b]) == a && Mad([a, a, b, a, b]) == 0.0
  {
    var s := [a, a, b, a, b];
    var e := Abs(b - a);
    MedianOfTwoClusters(a, b);
    DeviationsOfTwoClusters(a, b);
    MedianOfTwoClusters(0.0, e);
    assert Mad(s) == Median([0.0, 0.0, e, 0.0, e]);
  }

  lemma MedianOfTwoClusters(a: real, b: real)
    ensures Median([a, a, b, a, b]) == a
  {
    if a <= b {
      MedianOfTwoClustersUp(a, b);
    } else {
      MedianOfTwoClustersDown(a, b);
    }
  }

  lemma MedianOfTwoClustersUp(a: real, b: real)
    requires a <= b
    ensures Median([a, a, b, a, b]) == a
  {
    SortTwoClusters(a, b);
    MedianOfFive([a, a, b, a, b], [a, a, a, b, b]);
  }

  lemma MedianOfTwoClustersDown(a: real, b: real)
    requires b < a
    ensures Median([a, a, b, a, b]) == a
  {
    SortTwoClustersDown(a, b);
    MedianOfFive([a, a, b, a, b], [b, b, a, a, a]);
  }

  lemma MedianOfFive(s: seq<real>, t: seq<real>)
    requires |s| == 5 && Sort(s) == t
    ensures Median(s) == t[2]
  {
  }

  lemma DeviationsOfTwoClusters(a: real, b: real)
    ensures AbsDeviations([a, a, b, a, b], a) == [0.0, 0.0, Abs(b - a), 0.0, Abs(b - a)]
  {
  }

  lemma SortTwoClusters(a: real, b: real)
    requires a <= b
    ensures Sort([a, a, b, a, b]) == [a, a, a, b, b]
  {
    TwoClustersSorted(a, b);
    TwoClustersPermuted(a, b);
    SortIsUnique([a, a, b, a, b], [a, a, a, b, b]);
  }

  lemma TwoClustersSorted(a: real, b: real)
    requires a <= b
    ensures Sorted([a, a, a, b, b])
  {
  }

  lemma SortTwoClustersDown(a: real, b: real)
    requires b < a
    ensures Sort([a, a, b, a, b]) == [b, b, a, a, a]
  {
    TwoClustersSortedDown(a, b);
    TwoClustersPermutedDown(a, b);
    SortIsUnique([a, a, b, a, b], [b, b, a, a, a]);
  }

  lemma TwoClustersSortedDown(a: real, b: real)
    requires b < a
    ensures Sorted([b, b, a, a, a])
  {
  }

  lemma TwoClustersPermutedDown(a: real, b: real)
    ensures multiset([a, a, b, a, b]) == multiset([b, b, a, a, a])
  {
    TwoClustersPermuted(a, b);
    SwapBlocks([a, a, a], [b, b]);
    assert [a, a, a] + [b, b] == [a, a, a, b, b];
    assert [b, b] + [a, a, a] == [b, b, a, a, a];
  }

  lemma TwoClustersPermuted(a: real, b: real)
    ensures multiset([a, a, b, a, b]) == multiset([a, a, a, b, b])
  {
    assert [a, a, b, a, b] == [a, a] + [b, a] + [b];
    assert [a, a, a, b, b] == [a, a] + [a, b] + [b];
    SwapAdjacent([a, a], b, a, [b]);
  }

  lemma SwapBlocks(x: seq<real>, y: seq<real>)
    ensures multiset(x + y) == multiset(y + x)
  {
  }

  lemma SwapAdjacent(x: seq<real>, p: real, q: real, y: seq<real>)
    ensures multiset(x + [p, q] + y) == multiset(x + [q, p] + y)
  {
    assert multiset([p, q]) == multiset([q, p]);
  }

  // ---------------------------------------------------------------------
  // Mean and sample variance

  lemma {:induction false} SumBounds(s: seq<real>, lo: real, hi: real)
    requires forall i :: 0 <= i < |s| ==> lo <= s[i] <= hi
    ensures |s| as real * lo <= Sum(s) <= |s| as real * hi
  {
    if s != [] {
      SumBounds(s[1..], lo, hi);
      assert |s| as real * lo == lo + |s[1..]| as real * lo;
      assert |s| as real * hi == hi + |s[1..]| as real * hi;
    }
  }

  /** The mean lies between the minimum and the maximum. */
  lemma MeanBounds(s: seq<real>)
    requires |s| > 0
    ensures Min(s) <= Mean(s) <= Max(s)
  {
    MeanOfBounded(s, Min(s), Max(s));
  }

  lemma MeanOfBounded(s: seq<real>, lo: real, hi: real)
    requires |s| > 0
    requires forall i :: 0 <= i < |s| ==> lo <= s[i] <= hi
    ensures lo <= Mean(s) <= hi
  {
    SumBounds(s, lo, hi);
    DivideBounds(Sum(s), |s| as real, lo, hi);
  }

  lemma DivideBounds(a: real, n: real, lo: real, hi: real)
    requires n > 0.0 && n * lo <= a <= n * hi
    ensures lo <= a / n <= hi
  {
    assert (a / n) * n == a;
  }

  /** Sum of squared deviations from m. */
  function SquaredDeviations(s: seq<real>, m: real): (r: real)
    ensures r >= 0.0
  {
    if s == [] then 0.0
    else
      var d := s[0] - m;
      assert d * d >= 0.0 by {
        if d < 0.0 { assert d * d == (-d) * (-d); }
      }
      d * d + SquaredDeviations(s[1..], m)
  }

  /** pandas Series.var(): the sample variance with denominator n - 1,
      defined from two values on. */
  function SampleVariance(s: seq<real>): (v: real)
    requires |s| >= 2
    ensures v >= 0.0
  {
    SquaredDeviations(s, Mean(s)) / (|s| - 1) as real
  }

  lemma {:induction false} SquaredDeviationsOfConstant(s: seq<real>, c: real)
    requires forall i :: 0 <= i < |s| ==> s[i] == c
    ensures SquaredDeviations(s, c) == 0.0
  {
    if s != [] {
      SquaredDeviationsOfConstant(s[1..], c);
    }
  }

  /** Equal values have zero variance. */
  lemma VarianceOfConstant(s: seq<real>, c: real)
    requires |s| >= 2 && forall i :: 0 <= i < |s| ==> s[i] == c
    ensures SampleVariance(s) == 0.0
  {
    MeanBounds(s);
    assert Min(s) == c && Max(s) == c by {
      assert Min(s) in s && Max(s) in s;
    }
    SquaredDeviationsOfConstant(s, c);
  }
}
