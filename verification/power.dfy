/**
 Whole-number powers over the reals. The schedule raises `1 + r` to the
 term in months, a whole number, so a recursive power on a `nat` exponent
 models `powf` at whole-number exponents over exact reals.
 */
module Power {

  /** x raised to the n-th power. */
  function Pow(x: real, n: nat): real
    decreases n
  {
    if n == 0 then 1.0 else x * Pow(x, n - 1)
  }

  /** Every power of 1 is 1. */
  lemma {:induction false} PowOfOne(n: nat)
    ensures Pow(1.0, n) == 1.0
  {
    if n > 0 {
      PowOfOne(n - 1);
    }
  }

  /** A base of at least 1 gives a power of at least 1. */
  lemma {:induction false} PowAtLeastOne(x: real, n: nat)
    requires x >= 1.0
    ensures Pow(x, n) >= 1.0
    decreases n
  {
    if n > 0 {
      PowAtLeastOne(x, n - 1);
      var p := Pow(x, n - 1);
      assert x * p >= 1.0 * p by {
        assert (x - 1.0) * p >= 0.0;
      }
    }
  }

  /** A base above 1 raised to a positive power stays above 1. */
  lemma {:induction false} PowAboveOne(x: real, n: nat)
    requires x > 1.0
    requires n >= 1
    ensures Pow(x, n) > 1.0
  {
    PowAtLeastOne(x, n - 1);
    var p := Pow(x, n - 1);
    assert x * p > 1.0 * p by {
      assert (x - 1.0) * p > 0.0;
    }
  }
}
