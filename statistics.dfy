/**
 * The statistics the discretisation methods compute over the non-missing
 * values of one row: sum, arithmetic and harmonic mean, sorting, median
 * and quantile positions.
 */
module Statistics {

  ghost predicate Sorted(s: seq<real>) {
    forall i, j :: 0 <= i <= j < |s| ==> s[i] <= s[j]
  }

  ghost predicate AllPositive(xs: seq<real>) {
    forall i :: 0 <= i < |xs| ==> xs[i] > 0.0
  }

  function Sum(xs: seq<real>): real {
    if xs == [] then 0.0 else xs[0] + Sum(xs[1..])
  }

  /** Sum(xs) is at least |xs| times a lower bound of the values. */
  lemma {:induction false} SumAtLeast(xs: seq<real>, lo: real)
    requires forall i :: 0 <= i < |xs| ==> lo <= xs[i]
    ensures |xs| as real * lo <= Sum(xs)
  {
    if xs != [] {
      SumAtLeast(xs[1..], lo);
    }
  }

  /** Sum(xs) is at most |xs| times an upper bound of the values. */
  lemma {:induction false} SumAtMost(xs: seq<real>, hi: real)
    requires forall i :: 0 <= i < |xs| ==> xs[i] <= hi
    ensures Sum(xs) <= |xs| as real * hi
  {
    if xs != [] {
      SumAtMost(xs[1..], hi);
    }
  }

  /** If every value is at least m and one of them exceeds m, the sum exceeds |xs| * m. */
  lemma {:induction false} SumStrictlyAbove(xs: seq<real>, m: real, k: nat)
    requires k < |xs| && xs[k] > m
    requires forall i :: 0 <= i < |xs| ==> xs[i] >= m
    ensures Sum(xs) > |xs| as real * m
  {
    if k == 0 {
      SumAtLeast(xs[1..], m);
    } else {
      SumStrictlyAbove(xs[1..], m, k - 1);
      assert |xs| as real * m == (|xs| - 1) as real * m + m;
    }
  }

  /** If every value is strictly below m, the sum is strictly below |xs| * m. */
  lemma {:induction false} SumStrictlyBelow(xs: seq<real>, m: real)
    requires |xs| > 0
    requires forall i :: 0 <= i < |xs| ==> xs[i] < m
    ensures Sum(xs) < |xs| as real * m
  {
    if |xs| > 1 {
      SumStrictlyBelow(xs[1..], m);
    }
  }

  /** The sum of n copies of one value is n times that value. */
  lemma SumOfConstant(xs: seq<real>)
    requires |xs| > 0
    ensures (forall i :: 0 <= i < |xs| ==> xs[i] == xs[0]) ==> Sum(xs) == |xs| as real * xs[0]
  {
    if forall i :: 0 <= i < |xs| ==> xs[i] == xs[0] {
      SumAtLeast(xs, xs[0]);
      SumAtMost(xs, xs[0]);
    }
  }

  /** The arithmetic mean of a non-empty sequence of values; a row of one repeated value has that value as its mean. */
  function Mean(xs: seq<real>): (m: real)
    requires |xs| > 0
    ensures (forall i :: 0 <= i < |xs| ==> xs[i] == xs[0]) ==> m == xs[0]
  {
    SumOfConstant(xs);
    Sum(xs) / |xs| as real
  }

  /** The mean lies between the smallest and the largest value. */
  lemma MeanWithin(xs: seq<real>, lo: real, hi: real)
    requires |xs| > 0
    requires forall i :: 0 <= i < |xs| ==> lo <= xs[i] <= hi
    ensures lo <= Mean(xs) <= hi
  {
    SumAtLeast(xs, lo);
    SumAtMost(xs, hi);
  }

  /**
   * A row whose values are not all equal has a value strictly below the
   * mean and one at or above it, so a split at the mean yields both codes.
   */
  lemma MeanSplitsNonConstant(xs: seq<real>, i: nat, j: nat)
    requires i < |xs| && j < |xs| && xs[i] != xs[j]
    ensures exists k :: 0 <= k < |xs| && xs[k] < Mean(xs)
    ensures exists k :: 0 <= k < |xs| && xs[k] >= Mean(xs)
  {
    var m := Mean(xs);
    var n := |xs| as real;
    assert Sum(xs) == n * m;
    if forall k :: 0 <= k < |xs| ==> xs[k] >= m {
      var big := if xs[i] > m then i else j;
      SumStrictlyAbove(xs, m, big);
      assert false;
    }
    if forall k :: 0 <= k < |xs| ==> xs[k] < m {
      SumStrictlyBelow(xs, m);
      assert false;
    }
  }

  /** The reciprocal of every value, in order. */
  function Reciprocals(xs: seq<real>): (r: seq<real>)
    requires AllPositive(xs)
    ensures |r| == |xs|
    ensures forall i :: 0 <= i < |xs| ==> r[i] == 1.0 / xs[i] && r[i] > 0.0
  {
    if xs == [] then [] else [1.0 / xs[0]] + Reciprocals(xs[1..])
  }

  /** The sum of the reciprocals splits into the first reciprocal and the rest. */
  lemma ReciprocalSumStep(xs: seq<real>)
    requires |xs| > 0 && AllPositive(xs)
    ensures Sum(Reciprocals(xs)) == 1.0 / xs[0] + Sum(Reciprocals(xs[1..]))
  {
    var r := Reciprocals(xs);
    assert r == [1.0 / xs[0]] + Reciprocals(xs[1..]);
    assert r[1..] == Reciprocals(xs[1..]);
  }

  /** The harmonic mean of a non-empty sequence of strictly positive values is strictly positive. */
  function HarmonicMean(xs: seq<real>): (h: real)
    requires |xs| > 0 && AllPositive(xs)
    ensures h > 0.0
  {
    var s := Sum(Reciprocals(xs));
    ReciprocalSumPositive(xs);
    |xs| as real / s
  }

  lemma {:induction false} ReciprocalSumPositive(xs: seq<real>)
    requires |xs| > 0 && AllPositive(xs)
    ensures Sum(Reciprocals(xs)) > 0.0
  {
    ReciprocalSumStep(xs);
    ReciprocalPositive(xs[0]);
    if |xs| > 1 {
      ReciprocalSumPositive(xs[1..]);
    }
  }

  lemma ReciprocalPositive(x: real)
    requires x > 0.0
    ensures 1.0 / x > 0.0
  {
  }

  /** Inserts x into a sorted sequence, keeping it sorted. */
  function Insert(x: real, s: seq<real>): (r: seq<real>)
    requires Sorted(s)
    ensures Sorted(r)
    ensures multiset(r) == multiset(s) + multiset{x}
  {
    if s == [] then [x]
    else if x <= s[0] then
      PrependSorted(x, s);
      [x] + s
    else
      var tail := Insert(x, s[1..]);
      assert s == [s[0]] + s[1..];
      LowerBoundKept(s[0], x, s[1..], tail);
      PrependSorted(s[0], tail);
      [s[0]] + tail
  }

  /** A value at or below every element can be put in front of a sorted sequence. */
  lemma PrependSorted(h: real, s: seq<real>)
    requires Sorted(s) && forall i :: 0 <= i < |s| ==> h <= s[i]
    ensures Sorted([h] + s)
  {
  }

  /** A lower bound of rest and of x is a lower bound of any permutation of rest + [x]. */
  lemma LowerBoundKept(h: real, x: real, rest: seq<real>, r: seq<real>)
    requires h <= x && forall i :: 0 <= i < |rest| ==> h <= rest[i]
    requires multiset(r) == multiset(rest) + multiset{x}
    ensures forall i :: 0 <= i < |r| ==> h <= r[i]
  {
    forall i | 0 <= i < |r| ensures h <= r[i] {
      assert r[i] in multiset(r);
      if r[i] != x {
        assert r[i] in multiset(rest);
      }
    }
  }

  /** The values in ascending order: sorted, and a permutation of the input. */
  function Sort(xs: seq<real>): (r: seq<real>)
    ensures Sorted(r)
    ensures multiset(r) == multiset(xs)
    ensures |r| == |xs|
  {
    if xs == [] then []
    else
      assert xs == [xs[0]] + xs[1..];
      Insert(xs[0], Sort(xs[1..]))
  }

  /** Sorting values already in ascending order leaves them as they are. */
  lemma {:induction false} SortAscending(xs: seq<real>)
    requires Sorted(xs)
    ensures Sort(xs) == xs
  {
    if xs != [] {
      SortAscending(xs[1..]);
      assert xs == [xs[0]] + xs[1..];
    }
  }

  /**
   * The median of a non-empty sequence: the middle value of the sorted
   * values, or the average of the two middle values when their number is even.
   */
  function Median(xs: seq<real>): (m: real)
    requires |xs| > 0
    ensures exists i, j :: 0 <= i < |xs| && 0 <= j < |xs| && xs[i] <= m <= xs[j]
  {
    var s := Sort(xs);
    assert s[0] in multiset(xs) && s[|s| - 1] in multiset(xs);
    MiddleOf(s)
  }

  /** The middle value of a non-empty sorted sequence, or the average of the two middle values. */
  function MiddleOf(s: seq<real>): (m: real)
    requires |s| > 0
    ensures Sorted(s) ==> s[0] <= m <= s[|s| - 1]
  {
    var n := |s|;
    if n % 2 == 1 then s[n / 2] else (s[n / 2 - 1] + s[n / 2]) / 2.0
  }

  /** The median lies between the smallest and the largest value. */
  lemma MedianWithin(xs: seq<real>, lo: real, hi: real)
    requires |xs| > 0
    requires forall i :: 0 <= i < |xs| ==> lo <= xs[i] <= hi
    ensures lo <= Median(xs) <= hi
  {
    var s := Sort(xs);
    forall k | 0 <= k < |s| ensures lo <= s[k] <= hi {
      assert s[k] in multiset(xs);
    }
  }

  /** The fractional sorted position of the p-quantile among n values. */
  function Position(n: nat, p: real): real
    requires n > 0
  {
    p * (n - 1) as real
  }

  lemma PositionBounds(n: nat, p: real)
    requires n > 0 && 0.0 <= p <= 1.0
    ensures 0.0 <= Position(n, p) <= (n - 1) as real
  {
    assert (n - 1) as real * p <= (n - 1) as real * 1.0;
  }

  lemma PositionMonotone(n: nat, p: real, q: real)
    requires n > 0 && p <= q
    ensures Position(n, p) <= Position(n, q)
  {
    var c := (n - 1) as real;
    ProductNonNegative(q - p, c);
    assert q * c - p * c == (q - p) * c;
  }

  lemma ProductNonNegative(a: real, b: real)
    requires a >= 0.0 && b >= 0.0
    ensures a * b >= 0.0
  {
  }

  /**
   * The position of the p-quantile in a sorted sequence of n values: the
   * greatest index not exceeding p * (n - 1).
   */
  function QuantileIndex(n: nat, p: real): (i: nat)
    requires n > 0 && 0.0 <= p <= 1.0
    ensures i < n
    ensures i as real <= Position(n, p) < i as real + 1.0
  {
    PositionBounds(n, p);
    Position(n, p).Floor
  }

  /** A larger quantile never sits at an earlier position. */
  lemma QuantileIndexMonotone(n: nat, p: real, q: real)
    requires n > 0 && 0.0 <= p <= q <= 1.0
    ensures QuantileIndex(n, p) <= QuantileIndex(n, q)
  {
    PositionMonotone(n, p, q);
  }
}
