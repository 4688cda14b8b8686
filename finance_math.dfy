/** Exact arithmetic shared by the loan, investment and retirement formulas:
    powers, Python's `float ** int`, and the month-by-month recurrence
    `v := v * x + c` together with its closed form. */
module FinanceMath {
  import opened Wrappers

  /** `x ** n` for a natural exponent (`x ** 0 == 1`, also when `x == 0`). */
  function Pow(x: real, n: nat): real
  {
    if n == 0 then 1.0 else x * Pow(x, n - 1)
  }

  lemma {:induction false} PowNonZero(x: real, n: nat)
    requires x != 0.0
    ensures Pow(x, n) != 0.0
  {
    if n > 0 {
      PowNonZero(x, n - 1);
    }
  }

  /** A base above 1 raised to a positive power stays above 1. */
  lemma {:induction false} PowAboveOne(x: real, n: nat)
    requires x > 1.0 && n > 0
    ensures Pow(x, n) > 1.0
  {
    if n > 1 {
      PowAboveOne(x, n - 1);
      assert x * Pow(x, n - 1) > 1.0 * Pow(x, n - 1);
    }
  }

  /** A base strictly between 0 and 1 raised to a positive power stays below 1. */
  lemma {:induction false} PowBelowOne(x: real, n: nat)
    requires 0.0 < x < 1.0 && n > 0
    ensures 0.0 < Pow(x, n) < 1.0
  {
    if n > 1 {
      PowBelowOne(x, n - 1);
      assert x * Pow(x, n - 1) < 1.0 * Pow(x, n - 1);
      assert x * Pow(x, n - 1) > 0.0 * Pow(x, n - 1);
    }
  }

  /** Python's `x ** e` for a float `x` and an int `e`: a negative exponent
      gives the reciprocal, and `0.0 ** e` with `e < 0` raises ZeroDivisionError. */
  function PowInt(x: real, e: int): (r: Result<real>)
    ensures r.Err? <==> x == 0.0 && e < 0
    ensures e >= 0 ==> r == Ok(Pow(x, e))
    ensures r.Ok? && e < 0 ==> r.value * Pow(x, -e) == 1.0
  {
    if e >= 0 then Ok(Pow(x, e))
    else if x == 0.0 then Err(ZeroDivisionError)
    else
      PowNonZero(x, -e);
      Ok(1.0 / Pow(x, -e))
  }

  /** A positive base raised to a nonzero integer power is 1 only when the base is 1. */
  lemma PowIntIsOne(x: real, e: int)
    requires x > 0.0 && x != 1.0 && e != 0
    ensures PowInt(x, e).Ok? && PowInt(x, e).value != 1.0
  {
    var k: nat := if e > 0 then e else -e;
    if x > 1.0 {
      PowAboveOne(x, k);
    } else {
      PowBelowOne(x, k);
    }
  }

  lemma {:induction false} PowOfOne(n: nat)
    ensures Pow(1.0, n) == 1.0
  {
    if n > 0 {
      PowOfOne(n - 1);
    }
  }

  /** The value after `k` steps of `v := v * x + c`, starting from `v0`. */
  function Compound(v0: real, x: real, c: real, k: nat): real
  {
    if k == 0 then v0 else Compound(v0, x, c, k - 1) * x + c
  }

  /** Closed form of the recurrence, free of division:
      `(x - 1) * v_k == (x - 1) * v0 * x^k + c * (x^k - 1)`. */
  lemma {:induction false} CompoundClosedForm(v0: real, x: real, c: real, k: nat)
    ensures (x - 1.0) * Compound(v0, x, c, k) == (x - 1.0) * v0 * Pow(x, k) + c * (Pow(x, k) - 1.0)
  {
    if k > 0 {
      CompoundStep(v0, x, c, k);
      PowStep(x, k);
      CompoundClosedForm(v0, x, c, k - 1);
      StepAlgebra(x, Compound(v0, x, c, k - 1), v0, Pow(x, k - 1), c, Compound(v0, x, c, k), Pow(x, k));
    }
  }

  lemma CompoundStep(v0: real, x: real, c: real, k: nat)
    requires k > 0
    ensures Compound(v0, x, c, k) == Compound(v0, x, c, k - 1) * x + c
  {
  }

  lemma PowStep(x: real, k: nat)
    requires k > 0
    ensures Pow(x, k) == x * Pow(x, k - 1)
  {
  }

  /** One step of the closed-form induction, as plain algebra: `v'` and `p'`
      are the value and the power one step further on. */
  lemma StepAlgebra(x: real, v: real, v0: real, p: real, c: real, v': real, p': real)
    requires (x - 1.0) * v == (x - 1.0) * v0 * p + c * (p - 1.0)
    requires v' == v * x + c && p' == x * p
    ensures (x - 1.0) * v' == (x - 1.0) * v0 * p' + c * (p' - 1.0)
  {
    var a := x - 1.0;
    assert a * (v * x + c) == x * (a * v) + a * c;
    assert x * (a * v0 * p + c * (p - 1.0)) == a * v0 * (x * p) + c * (x * p) - c * x;
  }

  /** Without growth (`x == 1`) the recurrence only adds `c` at each step. */
  lemma {:induction false} CompoundWithoutGrowth(v0: real, c: real, k: nat)
    ensures Compound(v0, 1.0, c, k) == v0 + (k as real) * c
  {
    if k > 0 {
      CompoundWithoutGrowth(v0, c, k - 1);
    }
  }

  /** For a nonzero monthly rate `r` the recurrence equals the annuity formula
      `v0 * (1 + r)^k + c * ((1 + r)^k - 1) / r`. */
  lemma CompoundAnnuity(v0: real, r: real, c: real, k: nat)
    requires r != 0.0
    ensures Compound(v0, 1.0 + r, c, k) == v0 * Pow(1.0 + r, k) + c * ((Pow(1.0 + r, k) - 1.0) / r)
  {
    CompoundClosedForm(v0, 1.0 + r, c, k);
    AnnuityAlgebra(r, Compound(v0, 1.0 + r, c, k), v0, Pow(1.0 + r, k), c);
  }

  /** Dividing the closed form by a nonzero rate, as plain algebra. */
  lemma AnnuityAlgebra(r: real, v: real, v0: real, g: real, c: real)
    requires r != 0.0
    requires ((1.0 + r) - 1.0) * v == ((1.0 + r) - 1.0) * v0 * g + c * (g - 1.0)
    ensures v == v0 * g + c * ((g - 1.0) / r)
  {
    assert r * v == r * v0 * g + c * (g - 1.0);
    assert r * (v0 * g + c * ((g - 1.0) / r)) == r * v0 * g + c * (g - 1.0);
  }
}
