/**
 * The per-value codes of the numeric discretisation methods: floor,
 * ceiling, rounding on the first decimal digit, and the rank of a value
 * among a row's cut points (used by every split and bracket method).
 */
module Codes {

  /** The code written for a missing sample, whatever the method. */
  const MissingCode: int := -1

  /** The greatest integer not exceeding x. */
  function FloorCode(x: real): (r: int)
    ensures r as real <= x < r as real + 1.0
  {
    x.Floor
  }

  /** The least integer not below x. */
  function CeilCode(x: real): (r: int)
    ensures x <= r as real < x + 1.0
  {
    -((-x).Floor)
  }

  /** On integral values floor and ceiling agree; otherwise the ceiling is one more. */
  lemma FloorCeilAgreement(x: real)
    ensures CeilCode(x) == FloorCode(x) <==> x == FloorCode(x) as real
    ensures x != FloorCode(x) as real ==> CeilCode(x) == FloorCode(x) + 1
  {
    var f, c := FloorCode(x), CeilCode(x);
    if x == f as real {
      assert c as real < f as real + 1.0;
    }
  }

  /** The integer part of x, with the fraction dropped (truncation toward zero). */
  function IntegerPart(x: real): (r: int)
    ensures 0.0 <= x ==> r as real <= x < r as real + 1.0
    ensures x < 0.0 ==> r as real - 1.0 < x <= r as real
  {
    if x >= 0.0 then x.Floor else -((-x).Floor)
  }

  /** The first digit after the decimal point of x's decimal expansion. */
  function FirstDecimalDigit(x: real): (d: int)
    ensures 0 <= d <= 9
  {
    var a := if x >= 0.0 then x else -x;
    var frac := a - a.Floor as real;
    (frac * 10.0).Floor
  }

  /**
   * Rounding on the first digit after the decimal point: below 5 the value
   * goes to its integer part, from 5 on one step further away from zero.
   */
  function RoundCode(x: real): (r: int)
    ensures r == FloorCode(x) || r == CeilCode(x)
    ensures (x >= 0.0 ==> r >= 0) && (x <= 0.0 ==> r <= 0)
  {
    var away := if FirstDecimalDigit(x) >= 5 then 1 else 0;
    if x >= 0.0 then IntegerPart(x) + away else IntegerPart(x) - away
  }

  /** The first decimal digit is at least 5 exactly when the fraction is at least one half. */
  lemma DigitAtLeastFive(a: real)
    requires a >= 0.0
    ensures FirstDecimalDigit(a) >= 5 <==> a - a.Floor as real >= 0.5
  {
    var frac := a - a.Floor as real;
    assert FirstDecimalDigit(a) == (frac * 10.0).Floor;
  }

  /**
   * Rounding agrees with "nearest integer, halves away from zero", stated
   * independently as floor(|x| + 1/2) with the sign of x.
   */
  lemma RoundIsNearestHalfAway(x: real)
    ensures RoundCode(x) == if x >= 0.0 then (x + 0.5).Floor else -((-x + 0.5).Floor)
  {
    var a := if x >= 0.0 then x else -x;
    DigitAtLeastFive(a);
    var frac := a - a.Floor as real;
    if frac >= 0.5 {
      assert (a + 0.5).Floor == a.Floor + 1;
    } else {
      assert (a + 0.5).Floor == a.Floor;
    }
  }

  /** The rounded value is within one half of x, and a half goes away from zero. */
  lemma RoundWithinHalf(x: real)
    ensures -0.5 <= RoundCode(x) as real - x <= 0.5
    ensures x - IntegerPart(x) as real == 0.5 ==> RoundCode(x) == IntegerPart(x) + 1
    ensures x - IntegerPart(x) as real == -0.5 ==> RoundCode(x) == IntegerPart(x) - 1
  {
    RoundIsNearestHalfAway(x);
    var a := if x >= 0.0 then x else -x;
    var r := (a + 0.5).Floor;
    assert r as real <= a + 0.5 < r as real + 1.0;
  }

  /** Rounding never decreases: x <= y implies RoundCode(x) <= RoundCode(y). */
  lemma RoundMonotone(x: real, y: real)
    requires x <= y
    ensures RoundCode(x) <= RoundCode(y)
  {
    RoundIsNearestHalfAway(x);
    RoundIsNearestHalfAway(y);
    if x >= 0.0 {
      assert (x + 0.5).Floor <= (y + 0.5).Floor;
    } else if y < 0.0 {
      assert (-y + 0.5).Floor <= (-x + 0.5).Floor;
    } else {
      assert (-x + 0.5).Floor >= 0;
    }
  }

  /** The number of cut points at or below x: the code of x under a split at those cuts. */
  function Rank(cuts: seq<real>, x: real): (r: nat)
    ensures r <= |cuts|
  {
    if cuts == [] then 0 else (if cuts[0] <= x then 1 else 0) + Rank(cuts[1..], x)
  }

  /** A larger value never has a smaller rank. */
  lemma {:induction false} RankMonotone(cuts: seq<real>, x: real, y: real)
    requires x <= y
    ensures Rank(cuts, x) <= Rank(cuts, y)
  {
    if cuts != [] {
      RankMonotone(cuts[1..], x, y);
    }
  }

  /**
   * Against ascending cuts, a value at or above exactly the first m cuts
   * (and strictly below the rest) has rank m.
   */
  lemma {:induction false} RankOfSplitPoint(cuts: seq<real>, x: real, m: nat)
    requires m <= |cuts|
    requires forall i :: 0 <= i < m ==> cuts[i] <= x
    requires forall i :: m <= i < |cuts| ==> x < cuts[i]
    ensures Rank(cuts, x) == m
  {
    if cuts != [] {
      RankOfSplitPoint(cuts[1..], x, if m == 0 then 0 else m - 1);
    }
  }

  /** A split at one threshold t: code 1 for values at or above t, 0 below. */
  lemma SingleCut(t: real, x: real)
    ensures Rank([t], x) == if x >= t then 1 else 0
  {
    assert [t][1..] == [];
  }
}
