/**
 * The descriptive statistics pandas computes over the present values of a
 * column, on exact reals: sum, mean, min, max, the linear-interpolation
 * quantile (median = quantile 1/2), the sample variance (ddof = 1) and
 * rounding to two decimals.
 */
module Numeric {
  import opened Common

  function Sum(xs: seq<real>): real {
    if xs == [] then 0.0 else xs[0] + Sum(xs[1..])
  }

  lemma {:induction false} SumAppend(xs: seq<real>, ys: seq<real>)
    ensures Sum(xs + ys) == Sum(xs) + Sum(ys)
  {
    if xs == [] {
      assert xs + ys == ys;
    } else {
      assert (xs + ys)[0] == xs[0];
      assert (xs + ys)[1..] == xs[1..] + ys;
      SumAppend(xs[1..], ys);
    }
  }

  function MinOf(xs: seq<real>): (m: real)
    requires xs != []
    ensures m in xs
    ensures forall i :: 0 <= i < |xs| ==> m <= xs[i]
  {
    if |xs| == 1 then xs[0]
    else
      var m := MinOf(xs[1..]);
      assert forall i :: 1 <= i < |xs| ==> xs[i] == xs[1..][i - 1];
      if xs[0] <= m then xs[0] else m
  }

  function MaxOf(xs: seq<real>): (m: real)
    requires xs != []
    ensures m in xs
    ensures forall i :: 0 <= i < |xs| ==> xs[i] <= m
  {
    if |xs| == 1 then xs[0]
    else
      var m := MaxOf(xs[1..]);
      assert forall i :: 1 <= i < |xs| ==> xs[i] == xs[1..][i - 1];
      if xs[0] >= m then xs[0] else m
  }

  /** Every value lies in [lo, hi], so the sum lies in [n·lo, n·hi]. */
  lemma {:induction false} SumBounds(xs: seq<real>, lo: real, hi: real)
    requires forall i :: 0 <= i < |xs| ==> lo <= xs[i] <= hi
    ensures |xs| as real * lo <= Sum(xs) <= |xs| as real * hi
  {
    if xs != [] {
      assert forall i :: 0 <= i < |xs[1..]| ==> xs[1..][i] == xs[i + 1];
      SumBounds(xs[1..], lo, hi);
    }
  }

  /**
   * x times a count n, as n-fold addition; `ScaleIsProduct` shows it is x * n.
   * Keeping the count separate lets sums of such terms be reasoned about
   * without nonlinear arithmetic.
   */
  function Scale(x: real, n: nat): real {
    if n == 0 then 0.0 else Scale(x, n - 1) + x
  }

  lemma {:induction false} ScaleIsProduct(x: real, n: nat)
    ensures Scale(x, n) == x * n as real
  {
    if n > 0 {
      ScaleIsProduct(x, n - 1);
    }
  }

  lemma {:induction false} ScaleZero(n: nat)
    ensures Scale(0.0, n) == 0.0
  {
    if n > 0 {
      ScaleZero(n - 1);
    }
  }

  lemma {:induction false} ScaleAddCounts(x: real, p: nat, q: nat)
    ensures Scale(x, p + q) == Scale(x, p) + Scale(x, q)
  {
    if q > 0 {
      ScaleAddCounts(x, p, q - 1);
    }
  }

  lemma {:induction false} ScaleAddValues(x: real, y: real, n: nat)
    ensures Scale(x + y, n) == Scale(x, n) + Scale(y, n)
  {
    if n > 0 {
      ScaleAddValues(x, y, n - 1);
    }
  }

  lemma {:induction false} ScaleMonotone(x: real, y: real, n: nat)
    requires x <= y
    ensures Scale(x, n) <= Scale(y, n)
  {
    if n > 0 {
      ScaleMonotone(x, y, n - 1);
    }
  }

  /** `Series.mean()` over the present values. */
  function Mean(xs: seq<real>): real
    requires xs != []
  {
    Sum(xs) / |xs| as real
  }

  lemma DivideBounds(a: real, n: real, lo: real, hi: real)
    requires n > 0.0 && n * lo <= a <= n * hi
    ensures lo <= a / n <= hi
  {
  }

  /** The mean lies between the smallest and the largest value. */
  lemma MeanBetweenMinMax(xs: seq<real>)
    requires xs != []
    ensures MinOf(xs) <= Mean(xs) <= MaxOf(xs)
  {
    var lo, hi := MinOf(xs), MaxOf(xs);
    assert forall i :: 0 <= i < |xs| ==> lo <= xs[i] <= hi;
    MeanWithin(xs, lo, hi);
  }

  lemma MeanWithin(xs: seq<real>, lo: real, hi: real)
    requires xs != [] && forall i :: 0 <= i < |xs| ==> lo <= xs[i] <= hi
    ensures lo <= Mean(xs) <= hi
  {
    SumBounds(xs, lo, hi);
    DivideBounds(Sum(xs), |xs| as real, lo, hi);
  }

  ghost predicate Sorted(xs: seq<real>) {
    forall i, j :: 0 <= i < j < |xs| ==> xs[i] <= xs[j]
  }

  lemma AllAtLeast(y: real, x: real, s: seq<real>, t: seq<real>)
    requires y <= x
    requires forall i :: 0 <= i < |s| ==> y <= s[i]
    requires multiset(t) == multiset(s) + multiset{x}
    ensures forall k :: 0 <= k < |t| ==> y <= t[k]
  {
    forall k | 0 <= k < |t| ensures y <= t[k] {
      assert t[k] in multiset(t);
      if t[k] != x {
        assert t[k] in multiset(s);
        var i :| 0 <= i < |s| && s[i] == t[k];
      }
    }
  }

  function Insert(x: real, s: seq<real>): (r: seq<real>)
    requires Sorted(s)
    ensures |r| == |s| + 1
    ensures Sorted(r)
    ensures multiset(r) == multiset(s) + multiset{x}
  {
    if s == [] then [x]
    else if x <= s[0] then [x] + s
    else
      assert s == [s[0]] + s[1..];
      var t := Insert(x, s[1..]);
      AllAtLeast(s[0], x, s[1..], t);
      [s[0]] + t
  }

  /** The values in ascending order. */
  function SortAscending(xs: seq<real>): (s: seq<real>)
    ensures |s| == |xs|
    ensures Sorted(s)
    ensures multiset(s) == multiset(xs)
  {
    if xs == [] then []
    else
      assert xs == [xs[0]] + xs[1..];
      Insert(xs[0], SortAscending(xs[1..]))
  }

  lemma SameLength(s: seq<real>, xs: seq<real>)
    requires multiset(s) == multiset(xs)
    ensures |s| == |xs|
  {
    assert |s| == |multiset(s)|;
    assert |xs| == |multiset(xs)|;
  }

  lemma SortedFirstIsMin(s: seq<real>, xs: seq<real>)
    requires xs != [] && Sorted(s) && multiset(s) == multiset(xs)
    ensures |s| == |xs| && s[0] == MinOf(xs)
  {
    SameLength(s, xs);
    var m := MinOf(xs);
    assert s[0] in multiset(xs);
    var a :| 0 <= a < |xs| && xs[a] == s[0];
    assert m <= s[0];
    assert m in multiset(s);
    var c :| 0 <= c < |s| && s[c] == m;
    assert s[0] <= s[c];
  }

  lemma SortedLastIsMax(s: seq<real>, xs: seq<real>)
    requires xs != [] && Sorted(s) && multiset(s) == multiset(xs)
    ensures |s| == |xs| && s[|s| - 1] == MaxOf(xs)
  {
    SameLength(s, xs);
    var m := MaxOf(xs);
    var n := |s|;
    assert s[n - 1] in multiset(xs);
    var a :| 0 <= a < |xs| && xs[a] == s[n - 1];
    assert s[n - 1] <= m;
    assert m in multiset(s);
    var c :| 0 <= c < n && s[c] == m;
    assert s[c] <= s[n - 1];
  }

  /** The sorted values run from the minimum to the maximum. */
  lemma SortedBounds(xs: seq<real>)
    requires xs != []
    ensures |SortAscending(xs)| == |xs|
    ensures SortAscending(xs)[0] == MinOf(xs)
    ensures SortAscending(xs)[|xs| - 1] == MaxOf(xs)
  {
    var s := SortAscending(xs);
    SortedFirstIsMin(s, xs);
    SortedLastIsMax(s, xs);
  }

  /** The position h = (n-1)·num/den splits into a whole index and a fraction. */
  function QuantileIndex(n: nat, num: nat, den: nat): (k: nat)
    requires 0 < n && 0 < den && num <= den
    ensures k < n
  {
    MultiplyMonotone(n - 1, num, den);
    DivideBelow((n - 1) * num, n - 1, den);
    (n - 1) * num / den
  }

  function QuantileFraction(n: nat, num: nat, den: nat): (f: real)
    requires 0 < den
    ensures 0.0 <= f < 1.0
  {
    ((n - 1) * num % den) as real / den as real
  }

  lemma MultiplyMonotone(a: nat, b: nat, c: nat)
    requires b <= c
    ensures a * b <= a * c
  {
  }

  lemma DivideBelow(a: nat, m: nat, d: nat)
    requires 0 < d && a <= m * d
    ensures a / d <= m
  {
  }

  /** The value at position k + f of the sorted values `s`, 0 <= f < 1. */
  function Interpolate(s: seq<real>, k: nat, f: real): real
    requires k < |s|
  {
    if k + 1 < |s| then s[k] + (s[k + 1] - s[k]) * f else s[k]
  }

  lemma ProductNonNegative(x: real, y: real)
    requires 0.0 <= x && 0.0 <= y
    ensures 0.0 <= x * y
  {
  }

  lemma ScaleBelow(a: real, f: real, d: real)
    requires 0.0 <= a && 0.0 <= f < 1.0 && d == a * f
    ensures 0.0 <= d <= a
  {
    ProductNonNegative(a, f);
    ProductNonNegative(a, 1.0 - f);
    assert a * (1.0 - f) == a - a * f;
  }

  lemma InterpolateBetween(s: seq<real>, k: nat, f: real)
    requires Sorted(s) && k < |s| && 0.0 <= f < 1.0
    ensures s[0] <= Interpolate(s, k, f) <= s[|s| - 1]
  {
    var n := |s|;
    var lo, hi := s[0], s[n - 1];
    assert lo <= s[k] <= hi by {
      if 0 < k { assert s[0] <= s[k]; }
      if k < n - 1 { assert s[k] <= s[n - 1]; }
    }
    if k + 1 < n {
      assert s[k] <= s[k + 1] <= hi by {
        if k + 1 < n - 1 { assert s[k + 1] <= s[n - 1]; }
      }
      StepBetween(lo, s[k], s[k + 1], hi, f);
    }
  }

  /** A point between two neighbours lies between the bounds of both. */
  lemma StepBetween(lo: real, a: real, b: real, hi: real, f: real)
    requires lo <= a <= b <= hi && 0.0 <= f < 1.0
    ensures lo <= a + (b - a) * f <= hi
  {
    var d := (b - a) * f;
    ScaleBelow(b - a, f, d);
    assert a <= a + d <= b;
  }

  /**
   * `Series.quantile(q)` with linear interpolation, for q = num/den in [0, 1]:
   * the value at position h = (n-1)·q of the sorted values, interpolated
   * between its two neighbours.
   */
  function Quantile(xs: seq<real>, num: nat, den: nat): real
    requires xs != [] && 0 < den && num <= den
  {
    Interpolate(SortAscending(xs), QuantileIndex(|xs|, num, den), QuantileFraction(|xs|, num, den))
  }

  /** Every quantile lies between the smallest and the largest value. */
  lemma QuantileBetweenMinMax(xs: seq<real>, num: nat, den: nat)
    requires xs != [] && 0 < den && num <= den
    ensures MinOf(xs) <= Quantile(xs, num, den) <= MaxOf(xs)
  {
    var s := SortAscending(xs);
    var k := QuantileIndex(|xs|, num, den);
    var f := QuantileFraction(|xs|, num, den);
    assert Quantile(xs, num, den) == Interpolate(s, k, f);
    SortedBounds(xs);
    InterpolateBetween(s, k, f);
  }

  /** `Series.median()`. */
  function Median(xs: seq<real>): real
    requires xs != []
  {
    Quantile(xs, 1, 2)
  }

  function Square(d: real): (r: real)
    ensures r >= 0.0
  {
    if d >= 0.0 then d * d else (-d) * (-d)
  }

  function SumSquaredDeviations(xs: seq<real>, m: real): (r: real)
    ensures r >= 0.0
  {
    if xs == [] then 0.0 else Square(xs[0] - m) + SumSquaredDeviations(xs[1..], m)
  }

  /**
   * The sample variance (ddof = 1), the square of `Series.std()`. With fewer
   * than two values pandas' std is NaN, modelled as None.
   */
  function SampleVariance(xs: seq<real>): (v: Option<real>)
    ensures v.Some? <==> |xs| >= 2
    ensures v.Some? ==> v.value >= 0.0
  {
    if |xs| < 2 then None
    else Some(SumSquaredDeviations(xs, Mean(xs)) / (|xs| - 1) as real)
  }

  /**
   * `round(x, 2)`, taken as round-half-up on exact reals: the nearest multiple
   * of 1/100, with ties going up.
   */
  function Round2(x: real): (r: real)
    ensures x - 0.005 < r <= x + 0.005
    ensures (r * 100.0).Floor as real == r * 100.0
  {
    var n := (x * 100.0 + 0.5).Floor;
    assert x * 100.0 + 0.5 - 1.0 < n as real <= x * 100.0 + 0.5;
    n as real / 100.0
  }

  /** Rounding an already rounded value changes nothing. */
  lemma Round2Idempotent(x: real)
    ensures Round2(Round2(x)) == Round2(x)
  {
    var r := Round2(x);
    var n := (r * 100.0).Floor;
    assert (r * 100.0 + 0.5).Floor == n;
  }
}
