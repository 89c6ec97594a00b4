/** Rounded percentages, as the components compute them with
    `Math.round((part / whole) * 100)`. */
module Percent {

  /** `Math.round(100 * part / whole)` for a positive `whole`: the nearest
      integer to `100 * part / whole`, with halves rounded up.  In integers
      this is `(200 * part + whole) / (2 * whole)`. */
  function RoundedPercent(part: nat, whole: nat): (p: nat)
    requires whole > 0
    // p - 1/2 <= 100 * part / whole < p + 1/2, scaled by 2 * whole
    ensures 2 * whole * p <= 200 * part + whole < 2 * whole * (p + 1)
  {
    var p := (200 * part + whole) / (2 * whole);
    DivBounds(200 * part + whole, 2 * whole);
    p
  }

  /** `p` is `100 * part / whole` rounded to the nearest integer, halves
      rounded up. */
  predicate IsRoundedPercent(part: nat, whole: nat, p: nat)
  {
    2 * whole * p <= 200 * part + whole < 2 * whole * (p + 1)
  }

  /** Euclidean division facts, stated once for the rounding proofs. */
  lemma DivBounds(a: nat, b: nat)
    requires b > 0
    ensures b * (a / b) <= a < b * (a / b + 1)
  {
  }

  /** A part no larger than the whole is at most 100 percent. */
  lemma RoundedPercentAtMost100(part: nat, whole: nat)
    requires 0 < whole && part <= whole
    ensures RoundedPercent(part, whole) <= 100
  {
    var p := RoundedPercent(part, whole);
    if p > 100 {
      assert 2 * whole * p >= 2 * whole * 101 by {
        assert p >= 101;
        MulMono(2 * whole, 101, p);
      }
      assert false;
    }
  }

  lemma MulMono(k: nat, a: nat, b: nat)
    requires a <= b
    ensures k * a <= k * b
  {
  }

  /** For fewer than 200 items, the rounded percentage is 100 exactly when
      every item counts. */
  lemma RoundedPercentFullIff(part: nat, whole: nat)
    requires 0 < whole < 200 && part <= whole
    ensures RoundedPercent(part, whole) == 100 <==> part == whole
  {
    var p := RoundedPercent(part, whole);
    if part == whole {
      RoundedPercentAtMost100(part, whole);
      assert 2 * whole * p <= 201 * whole;
      if p < 100 {
        MulMono(2 * whole, p + 1, 100);
        assert false;
      }
    } else {
      // part <= whole - 1, so 200 * part + whole <= 199 * whole - 200 + whole < 200 * whole
      assert 200 * part + whole < 200 * whole;
      if p >= 100 {
        MulMono(2 * whole, 100, p);
        assert false;
      }
    }
  }

  /** The bound 200 is tight: with 200 items of which 199 count, the
      percentage already rounds to 100. */
  lemma RoundedPercentFullAt200()
    ensures RoundedPercent(199, 200) == 100
  {
  }
}
