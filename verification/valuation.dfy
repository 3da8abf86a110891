/**
 * How the closed-form perpetuity rates relate to the finite schedules the
 * other tabs hand to the root finder.  The root finder itself is not
 * modelled; `IsIrr` states what any rate it returns is meant to satisfy.
 */
module Valuation {
  import opened Wrappers
  import opened CashFlow
  import opened Perpetuity

  /** `r` is an internal rate of return of `flows`: the schedule's net
      present value at `r` is zero. */
  predicate IsIrr(flows: seq<real>, r: real)
  {
    r != -1.0 && Npv(flows, r) == 0.0
  }

  lemma DiscountAlgebra(v: real, r: real, c: real, p: real, w: real)
    requires v * (1.0 + r) == 1.0 && r != 0.0
    requires (1.0 - v) * p == c * (1.0 - w)
    ensures v * p == (c / r) * (1.0 - w)
  {
    assert 1.0 - v == r * v;
    assert r * (v * p) == c * (1.0 - w);
  }

  /**
   * Closed form of a finite constant schedule's net present value: the
   * investment plus the perpetuity value of the flows, less the part of the
   * perpetuity paid after the horizon.
   */
  lemma {:induction false} ConstantScheduleNpv(investment: real, cf: real, n: int, r: real)
    requires r != 0.0 && r != -1.0
    ensures Npv(ConstantSchedule(investment, cf, n), r)
            == investment + PerpetuityValue(cf, r) * (1.0 - Pow(1.0 / (1.0 + r), Max0(n)))
  {
    var v := 1.0 / (1.0 + r);
    var m := Max0(n);
    var s := ConstantSchedule(investment, cf, n);
    assert s[1..] == Replicate(cf, m);
    ReplicatedPresentValue(cf, m, v);
    DiscountAlgebra(v, r, cf, PresentValue(Replicate(cf, m), v), Pow(v, m));
  }

  lemma {:induction false} PowPositive(v: real, n: nat)
    requires v > 0.0
    ensures Pow(v, n) > 0.0
    decreases n
  {
    if n > 0 {
      PowPositive(v, n - 1);
    }
  }

  lemma {:induction false} PowNonzero(v: real, n: nat)
    requires v != 0.0
    ensures Pow(v, n) != 0.0
    decreases n
  {
    if n > 0 {
      PowNonzero(v, n - 1);
    }
  }

  /**
   * At a positive rate, finitely many positive flows are worth strictly less
   * than the perpetuity paying the same flow forever.
   */
  lemma FiniteBelowPerpetuity(investment: real, cf: real, n: int, r: real)
    requires r > 0.0 && cf > 0.0
    ensures Npv(ConstantSchedule(investment, cf, n), r) - investment < PerpetuityValue(cf, r)
  {
    ConstantScheduleNpv(investment, cf, n, r);
    PowPositive(1.0 / (1.0 + r), Max0(n));
  }

  /** The closed form at a rate whose perpetuity value cancels the
      investment, as plain algebra. */
  lemma CancelledClosedForm(npv: real, investment: real, p: real, w: real)
    requires npv == investment + p * (1.0 - w)
    requires p + investment == 0.0
    requires investment != 0.0 && w != 0.0
    ensures npv == investment * w
    ensures npv != 0.0
  {
  }

  /** The constant perpetuity's rate is never -1 unless the flow equals the
      investment. */
  lemma ConstantRateNotMinusOne(investment: real, cf: real)
    requires investment != 0.0 && cf != 0.0 && cf != investment
    ensures -cf / investment != -1.0
  {
    assert (-cf / investment) * investment == -cf;
  }

  /**
   * Evaluated at the constant perpetuity's rate, a finite constant schedule
   * falls short of zero by exactly the investment discounted over the horizon:
   * the finite tab's IRR is not the perpetuity tab's IRR.
   */
  lemma PerpetualRateOnFiniteSchedule(investment: real, cf: real, n: int)
    requires investment != 0.0 && cf != 0.0 && cf != investment
    ensures ConstantComparison(investment, cf).Some?
    ensures ConstantComparison(investment, cf).value != -1.0
    ensures var r := ConstantComparison(investment, cf).value;
            Npv(ConstantSchedule(investment, cf, n), r) == investment * Pow(1.0 / (1.0 + r), Max0(n))
    ensures !IsIrr(ConstantSchedule(investment, cf, n), ConstantComparison(investment, cf).value)
  {
    var r := ConstantComparison(investment, cf).value;
    ConstantRateNotMinusOne(investment, cf);
    var v := 1.0 / (1.0 + r);
    var w := Pow(v, Max0(n));
    var npv := Npv(ConstantSchedule(investment, cf, n), r);
    ConstantScheduleNpv(investment, cf, n, r);
    PowNonzero(v, Max0(n));
    CancelledClosedForm(npv, investment, PerpetuityValue(cf, r), w);
  }

  /**
   * A finite schedule whose residual returns the principal (`fv` equal to
   * minus the investment) has the constant perpetuity's rate as an IRR.
   */
  lemma PrincipalReturningSchedule(investment: real, cf: real, n: int)
    requires investment != 0.0 && cf != 0.0 && cf != investment
    requires n >= 1
    ensures ConstantComparison(investment, cf).Some?
    ensures IsIrr(ResidualSchedule(investment, cf, n, -investment),
                  ConstantComparison(investment, cf).value)
  {
    PerpetualRateOnFiniteSchedule(investment, cf, n);
    var r := ConstantComparison(investment, cf).value;
    ResidualNpv(investment, cf, n, -investment, r);
  }
}
