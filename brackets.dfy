/**
 * The partition used by the bracket-medians method: n sorted values are
 * cut into k contiguous groups whose sizes differ by at most one, the
 * remainder going to the first groups. Groups past the n-th are empty when
 * k > n; they get no cut point, so their codes are never produced.
 */
module Brackets {
  import opened Statistics
  import opened Codes

  function Min(a: nat, b: nat): nat { if a <= b then a else b }

  /** The number of values in group i. */
  function BracketSize(n: nat, k: nat, i: nat): (r: nat)
    requires k > 0
    ensures n / k <= r <= n / k + 1
    ensures r == n / k + 1 <==> i < n % k
  {
    n / k + (if i < n % k then 1 else 0)
  }

  /** The sorted position at which group i starts: right after group i - 1. */
  function BracketStart(n: nat, k: nat, i: nat): (r: nat)
    requires k > 0
    ensures i * (n / k) <= r <= i * (n / k + 1)
  {
    if i == 0 then 0 else BracketStart(n, k, i - 1) + BracketSize(n, k, i - 1)
  }

  /** Closed form: group i starts after i full groups and min(i, n % k) extra values. */
  lemma {:induction false} BracketStartClosedForm(n: nat, k: nat, i: nat)
    requires k > 0
    ensures BracketStart(n, k, i) == i * (n / k) + Min(i, n % k)
  {
    if i > 0 {
      BracketStartClosedForm(n, k, i - 1);
      assert i * (n / k) == (i - 1) * (n / k) + n / k;
    }
  }

  /** The k groups together hold exactly the n values. */
  lemma BracketsCoverAll(n: nat, k: nat)
    requires k > 0
    ensures BracketStart(n, k, k) == n
  {
    BracketStartClosedForm(n, k, k);
    assert n % k < k;
    assert k * (n / k) + n % k == n;
  }

  /** Group sizes are balanced: earlier groups are at most one larger than later ones. */
  lemma BracketSizesBalanced(n: nat, k: nat, i: nat, j: nat)
    requires 0 < k && i <= j < k
    ensures BracketSize(n, k, j) <= BracketSize(n, k, i) <= BracketSize(n, k, j) + 1
  {
  }

  /** Group starts never decrease. */
  lemma {:induction false} BracketStartMonotone(n: nat, k: nat, i: nat, j: nat)
    requires k > 0 && i <= j
    ensures BracketStart(n, k, i) <= BracketStart(n, k, j)
  {
    if i < j {
      BracketStartMonotone(n, k, i, j - 1);
    }
  }

  /** The number of groups that hold at least one value. */
  function NonEmptyBrackets(n: nat, k: nat): nat
  {
    if n >= k then k else n
  }

  /** Every group before NonEmptyBrackets(n, k) starts inside the sequence. */
  lemma NonEmptyStartsInside(n: nat, k: nat, i: nat)
    requires k > 0 && i < NonEmptyBrackets(n, k)
    ensures BracketStart(n, k, i) < n && BracketSize(n, k, i) > 0
  {
    BracketSizePositive(n, k, i);
    BracketStartMonotone(n, k, i + 1, k);
    BracketsCoverAll(n, k);
  }

  lemma BracketSizePositive(n: nat, k: nat, i: nat)
    requires k > 0 && i < NonEmptyBrackets(n, k)
    ensures BracketSize(n, k, i) > 0
  {
    QuotientAtLeastOne(n, k);
  }

  lemma QuotientAtLeastOne(n: nat, k: nat)
    requires k > 0
    ensures n >= k ==> n / k >= 1
    ensures n < k ==> n / k == 0 && n % k == n
  {
    assert k * (n / k) + n % k == n;
    assert n % k < k;
  }

  /** The number of cut points of a row of n values in k groups. */
  function EdgeCount(n: nat, k: nat): nat
  {
    if n == 0 || k == 0 then 0 else NonEmptyBrackets(n, k) - 1
  }

  /** The sorted position of the j-th cut point: the start of group j + 1. */
  function EdgeStart(n: nat, k: nat, j: nat): nat
    requires k > 0
  {
    BracketStart(n, k, j + 1)
  }

  /**
   * The cut points of the bracket-medians method over sorted values s: the
   * smallest value of every non-empty group but the first.
   */
  function BracketEdges(s: seq<real>, k: nat): (e: seq<real>)
    requires k > 0
    ensures |e| == EdgeCount(|s|, k) && |e| < k
    ensures forall j :: 0 <= j < |e| ==>
      EdgeStart(|s|, k, j) < |s| && e[j] == s[EdgeStart(|s|, k, j)]
  {
    var n := |s|;
    var m := EdgeCount(n, k);
    assert forall j :: 0 <= j < m ==> EdgeStart(n, k, j) < n by {
      forall j | 0 <= j < m ensures EdgeStart(n, k, j) < n {
        NonEmptyStartsInside(n, k, j + 1);
      }
    }
    seq(m, j requires 0 <= j < m =>
      s[EdgeStart(n, k, j)])
  }

  /** A bracket code lies in 0 .. k-1. */
  lemma BracketCodeRange(s: seq<real>, k: nat, x: real)
    requires k > 0
    ensures 0 <= Rank(BracketEdges(s, k), x) < k
  {
  }

  ghost predicate StrictlySorted(s: seq<real>) {
    forall i, j :: 0 <= i < j < |s| ==> s[i] < s[j]
  }

  /** A group that holds a value is one of the non-empty groups. */
  lemma OccupiedGroupIsNonEmpty(n: nat, k: nat, g: nat)
    requires 0 < k && g < k && BracketSize(n, k, g) > 0
    ensures g < NonEmptyBrackets(n, k)
  {
    if n < k {
      assert n / k == 0 && n % k == n;
    }
  }

  /** The cut points of groups 1 .. g lie at or below every value of group g. */
  lemma EdgesBelowGroup(s: seq<real>, k: nat, g: nat, j: nat)
    requires k > 0 && Sorted(s) && j < |s|
    requires g < k && BracketStart(|s|, k, g) <= j
    ensures var e := BracketEdges(s, k); forall i :: 0 <= i < g && i < |e| ==> e[i] <= s[j]
  {
    var e := BracketEdges(s, k);
    forall i | 0 <= i < g && i < |e| ensures e[i] <= s[j] {
      BracketStartMonotone(|s|, k, i + 1, g);
    }
  }

  /** The cut points of groups after g lie strictly above every value of group g. */
  lemma EdgesAboveGroup(s: seq<real>, k: nat, g: nat, j: nat)
    requires k > 0 && StrictlySorted(s) && j < |s|
    requires j < BracketStart(|s|, k, g + 1)
    ensures var e := BracketEdges(s, k); forall i :: g <= i < |e| ==> s[j] < e[i]
  {
    var e := BracketEdges(s, k);
    forall i | g <= i < |e| ensures s[j] < e[i] {
      BracketStartMonotone(|s|, k, g + 1, i + 1);
    }
  }

  /**
   * With distinct sorted values, every value of group g gets code g: groups
   * are numbered 0 .. k-1 in ascending value order.
   */
  lemma BracketCodeIsGroup(s: seq<real>, k: nat, g: nat, j: nat)
    requires k > 0 && StrictlySorted(s) && j < |s|
    requires g < k && BracketStart(|s|, k, g) <= j < BracketStart(|s|, k, g + 1)
    ensures Rank(BracketEdges(s, k), s[j]) == g
  {
    var n := |s|;
    var e := BracketEdges(s, k);
    BracketStartMonotone(n, k, g + 1, k);
    BracketsCoverAll(n, k);
    OccupiedGroupIsNonEmpty(n, k, g);
    assert g <= |e|;
    EdgesBelowGroup(s, k, g, j);
    EdgesAboveGroup(s, k, g, j);
    RankOfSplitPoint(e, s[j], g);
  }

  /** The sizes of ten values in three groups are 4, 3 and 3. */
  lemma TenValuesInThreeBrackets()
    ensures [BracketSize(10, 3, 0), BracketSize(10, 3, 1), BracketSize(10, 3, 2)] == [4, 3, 3]
  {
  }
}
