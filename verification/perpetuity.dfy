/**
 * Closed-form IRR of perpetuities, at each of the four places the calculator
 * computes one.  The single-scenario tabs and the multi-project comparison use
 * the same formulas behind different guards, and the guards are kept apart
 * here exactly as the calculator has them.
 *
 * A division the calculator leaves unguarded raises in Python; the functions
 * below require the divisor to be nonzero on exactly the branches that divide.
 */
module Perpetuity {
  import opened Wrappers

  /** Closed-form value at time 0 of a perpetuity paying `cf` every period
      from period 1 on, discounted at `r`; it equals the sum of
      cf / (1 + r)^t for t >= 1 where that series converges (r > 0). */
  function PerpetuityValue(cf: real, r: real): real
    requires r != 0.0
  {
    cf / r
  }

  /** Closed-form value at time 0 of a perpetuity whose first payment `cf1`
      grows by `g` each period, discounted at `r` (the Gordon growth model);
      it equals the discounted series where that converges (r > g > -1). */
  function GrowingPerpetuityValue(cf1: real, r: real, g: real): real
    requires r != g
  {
    cf1 / (r - g)
  }

  /**
   * Constant-perpetuity IRR in the comparison table: `-cf / invest`, or no
   * rate when the periodic flow is zero.  The rate makes the net present value
   * of the perpetuity zero.
   */
  function ConstantComparison(invest: real, cf: real): (r: Option<real>)
    requires cf != 0.0 ==> invest != 0.0
    ensures r.None? <==> cf == 0.0
    ensures r.Some? ==> r.value != 0.0 && PerpetuityValue(cf, r.value) + invest == 0.0
    ensures r.Some? && invest < 0.0 && cf > 0.0 ==> r.value > 0.0
  {
    if cf != 0.0 then Some(-cf / invest) else None
  }

  /**
   * Constant-perpetuity IRR on its own tab: refuses (shows a warning) when the
   * periodic flow is zero, and otherwise shows the same rate as the
   * comparison table.
   */
  function ConstantTab(investment: real, cf: real): (r: Option<real>)
    requires cf != 0.0 ==> investment != 0.0
    ensures r.None? <==> cf == 0.0
    ensures r.Some? ==> r.value != 0.0 && PerpetuityValue(cf, r.value) + investment == 0.0
    ensures r.Some? && investment < 0.0 && cf > 0.0 ==> r.value > 0.0
    ensures r == ConstantComparison(investment, cf)
  {
    if cf != 0.0 then
      var irr := -cf / investment;
      Some(irr)
    else
      None
  }

  /** The zero of a constant perpetuity's net present value is unique: any
      rate that prices the perpetuity at the investment is the returned one. */
  lemma ConstantRateUnique(invest: real, cf: real, x: real)
    requires cf != 0.0 && invest != 0.0
    requires x != 0.0 && PerpetuityValue(cf, x) + invest == 0.0
    ensures ConstantComparison(invest, cf) == Some(x)
  {
  }

  /**
   * Growing-perpetuity IRR in the comparison table: `g - cf1 / invest`, or no
   * rate when the investment is zero.  The growth rate is not checked here.
   */
  function GrowthComparison(invest: real, cf1: real, g: real): (r: Option<real>)
    ensures r.None? <==> invest == 0.0
    ensures r.Some? && cf1 != 0.0 ==>
              r.value != g && GrowingPerpetuityValue(cf1, r.value, g) + invest == 0.0
    ensures r.Some? && cf1 == 0.0 ==> r.value == g
    ensures r.Some? && invest < 0.0 && cf1 > 0.0 ==> r.value > g
  {
    if invest != 0.0 then Some(g - cf1 / invest) else None
  }

  /** Likewise the Gordon rate is the only rate at which the growing
      perpetuity is priced at the investment. */
  lemma GrowthRateUnique(invest: real, cf1: real, g: real, x: real)
    requires cf1 != 0.0 && invest != 0.0
    requires x != g && GrowingPerpetuityValue(cf1, x, g) + invest == 0.0
    ensures GrowthComparison(invest, cf1, g) == Some(x)
  {
    var d := x - g;
    calc {
      d;
      (cf1 / d) * d / (cf1 / d);
      cf1 / (cf1 / d);
      cf1 / -invest;
      -cf1 / invest;
    }
    assert x == g + d == g - cf1 / invest;
  }

  /**
   * Growing-perpetuity IRR on its own tab: refuses (shows a warning) unless
   * the growth rate is below 1, and then divides by the investment unguarded.
   */
  function GrowthTab(investment: real, cf1: real, g: real): (r: Option<real>)
    requires g < 1.0 ==> investment != 0.0
    ensures r.None? <==> g >= 1.0
    ensures r.Some? && cf1 != 0.0 ==>
              r.value != g && GrowingPerpetuityValue(cf1, r.value, g) + investment == 0.0
    ensures r.Some? && cf1 == 0.0 ==> r.value == g
    ensures r.Some? && investment < 0.0 && cf1 > 0.0 ==> r.value > g
  {
    if g < 1.0 then
      var irr := g - cf1 / investment;
      Some(irr)
    else
      None
  }

  /** Where both growth call sites produce a rate, it is the same rate. */
  lemma GrowthPathsAgree(invest: real, cf1: real, g: real)
    requires g < 1.0 && invest != 0.0
    ensures GrowthTab(invest, cf1, g) == GrowthComparison(invest, cf1, g)
  {
  }

  /** The guards genuinely differ: with a growth rate of 1 or more the tab
      refuses while the comparison table still reports a rate. */
  lemma GrowthGuardsDiverge(invest: real, cf1: real, g: real)
    requires g >= 1.0 && invest != 0.0
    ensures GrowthTab(invest, cf1, g).None?
    ensures GrowthComparison(invest, cf1, g) == Some(g - cf1 / invest)
  {
  }

  /** For a nonzero flow, the Gordon rate at zero growth is the
      constant-perpetuity rate. */
  lemma ZeroGrowthIsConstant(invest: real, cf: real)
    requires invest != 0.0 && cf != 0.0
    ensures GrowthComparison(invest, cf, 0.0) == ConstantComparison(invest, cf)
  {
    assert 0.0 - cf / invest == -cf / invest;
  }

  /** A zero flow separates the comparison table's two perpetuity types: the
      constant one yields no rate while the growing one yields `g`. */
  lemma ZeroFlowDiverges(invest: real, g: real)
    requires invest != 0.0
    ensures ConstantComparison(invest, 0.0) == None
    ensures GrowthComparison(invest, 0.0, g) == Some(g)
  {
  }
}
