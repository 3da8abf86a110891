/**
 * Cash-flow schedules as the calculator builds them before handing them to the
 * root finder: index 0 is the (usually negative) initial investment, indices
 * 1..N the flows of periods 1..N.  Also the present value of a schedule under
 * a per-period discount factor, which is the quantity an IRR makes zero.
 */
module CashFlow {

  function Max0(k: int): (m: nat)
    ensures m >= k
    ensures m == k || m == 0
  {
    if k > 0 then k else 0
  }

  /**
   * Python's list repetition `[x] * k`: `k` copies of `x`, and the empty list
   * for any count that is not positive.
   */
  function Replicate(x: real, k: int): (r: seq<real>)
    ensures |r| == Max0(k)
    ensures forall i :: 0 <= i < |r| ==> r[i] == x
    decreases Max0(k)
  {
    if k <= 0 then [] else [x] + Replicate(x, k - 1)
  }

  /** Finite constant flow: `[investment] + [cf] * n`. */
  function ConstantSchedule(investment: real, cf: real, n: int): (s: seq<real>)
    ensures |s| == Max0(n) + 1
    ensures s[0] == investment
    ensures forall i :: 1 <= i < |s| ==> s[i] == cf
  {
    [investment] + Replicate(cf, n)
  }

  /**
   * Finite constant flow whose last period also pays a residual value:
   * `[investment] + [cf] * (n - 1) + [cf + fv]`.  The residual is folded into
   * the final flow, never appended as an extra period, and the schedule ends
   * in `cf + fv` whatever `n` is.
   */
  function ResidualSchedule(investment: real, cf: real, n: int, fv: real): (s: seq<real>)
    ensures |s| == Max0(n - 1) + 2
    ensures s[0] == investment
    ensures s[|s| - 1] == cf + fv
    ensures forall i :: 1 <= i < |s| - 1 ==> s[i] == cf
  {
    [investment] + Replicate(cf, n - 1) + [cf + fv]
  }

  /** For at least one period the residual schedule is the constant schedule
      with the residual added to its last entry, and to nothing else. */
  lemma ResidualExtendsConstant(investment: real, cf: real, n: int, fv: real)
    requires n >= 1
    ensures |ResidualSchedule(investment, cf, n, fv)| == |ConstantSchedule(investment, cf, n)|
    ensures ResidualSchedule(investment, cf, n, fv)
            == ConstantSchedule(investment, cf, n)[n := cf + fv]
    ensures forall i :: 0 <= i < n ==>
              ResidualSchedule(investment, cf, n, fv)[i] == ConstantSchedule(investment, cf, n)[i]
    ensures ResidualSchedule(investment, cf, n, fv)[n] == ConstantSchedule(investment, cf, n)[n] + fv
  {
    var r := ResidualSchedule(investment, cf, n, fv);
    var c := ConstantSchedule(investment, cf, n);
    assert |r| == |c| == n + 1;
    forall i | 0 <= i < n + 1
      ensures r[i] == c[n := cf + fv][i]
    {
      if i == 0 {
      } else if i < n {
      }
    }
  }

  /** With fewer than two periods the residual schedule is one investment
      and one flow carrying both the period's cash and the residual. */
  lemma ShortResidualSchedule(investment: real, cf: real, n: int, fv: real)
    requires n <= 1
    ensures ResidualSchedule(investment, cf, n, fv) == [investment, cf + fv]
  {
  }

  /** The form's default inputs for the residual tab: five periods of 100
      on an investment of -1000 with a residual of 200. */
  lemma DefaultResidualSchedule()
    ensures ResidualSchedule(-1000.0, 100.0, 5, 200.0) == [-1000.0, 100.0, 100.0, 100.0, 100.0, 300.0]
    ensures ConstantSchedule(-1000.0, 100.0, 5) == [-1000.0, 100.0, 100.0, 100.0, 100.0, 100.0]
  {
    var r := ResidualSchedule(-1000.0, 100.0, 5, 200.0);
    assert |r| == 6;
  }

  function Pow(v: real, t: nat): real
  {
    if t == 0 then 1.0 else v * Pow(v, t - 1)
  }

  /**
   * Present value of `flows` when one period discounts by the factor `v`,
   * written in Horner form: flows[0] + v * (flows[1] + v * (...)).
   */
  function PresentValue(flows: seq<real>, v: real): real
  {
    if |flows| == 0 then 0.0 else flows[0] + v * PresentValue(flows[1..], v)
  }

  /**
   * The textbook definition of the same quantity, summed from the first period
   * to the last: sum over t of flows[t] * v^t.
   */
  function DiscountedSum(flows: seq<real>, v: real): real
  {
    if |flows| == 0 then 0.0
    else DiscountedSum(flows[..|flows| - 1], v) + flows[|flows| - 1] * Pow(v, |flows| - 1)
  }

  /** Net present value at the periodic rate `r` (discount factor 1 / (1 + r)). */
  function Npv(flows: seq<real>, r: real): real
    requires r != -1.0
  {
    PresentValue(flows, 1.0 / (1.0 + r))
  }

  /** Present value splits over concatenation: the later part is discounted
      by as many periods as the earlier part is long. */
  lemma {:induction false} PresentValueAppend(a: seq<real>, b: seq<real>, v: real)
    ensures PresentValue(a + b, v) == PresentValue(a, v) + Pow(v, |a|) * PresentValue(b, v)
    decreases |a|
  {
    if |a| == 0 {
      assert a + b == b;
    } else {
      assert (a + b)[1..] == a[1..] + b;
      PresentValueAppend(a[1..], b, v);
      assert Pow(v, |a|) == v * Pow(v, |a| - 1);
      ShiftStep(a[0], v, PresentValue(a[1..], v), Pow(v, |a| - 1), PresentValue(b, v));
    }
  }

  /** One step of the concatenation induction, as plain algebra. */
  lemma ShiftStep(x: real, v: real, pa: real, q: real, pb: real)
    ensures x + v * (pa + q * pb) == (x + v * pa) + (v * q) * pb
  {
  }

  /** The Horner form agrees with the period-by-period sum on every schedule. */
  lemma {:induction false} PresentValueIsDiscountedSum(flows: seq<real>, v: real)
    ensures PresentValue(flows, v) == DiscountedSum(flows, v)
    decreases |flows|
  {
    if |flows| > 0 {
      var init := flows[..|flows| - 1];
      var last := flows[|flows| - 1];
      assert flows == init + [last];
      PresentValueAppend(init, [last], v);
      assert PresentValue([last], v) == last;
      PresentValueIsDiscountedSum(init, v);
    }
  }

  /** Raising one entry by `d` raises the present value by `d` discounted to
      that entry's period. */
  lemma {:induction false} PresentValueBump(s: seq<real>, k: nat, d: real, v: real)
    requires k < |s|
    ensures PresentValue(s[k := s[k] + d], v) == PresentValue(s, v) + d * Pow(v, k)
    decreases k
  {
    var s' := s[k := s[k] + d];
    if k == 0 {
      assert s'[1..] == s[1..];
    } else {
      assert s'[1..] == s[1..][k - 1 := s[1..][k - 1] + d];
      PresentValueBump(s[1..], k - 1, d, v);
      calc {
        PresentValue(s', v);
        s[0] + v * PresentValue(s'[1..], v);
        s[0] + v * (PresentValue(s[1..], v) + d * Pow(v, k - 1));
        s[0] + v * PresentValue(s[1..], v) + d * (v * Pow(v, k - 1));
      }
    }
  }

  /** Geometric series: (1 - v) times the value of `n` equal flows `c`
      (the first undiscounted) is c * (1 - v^n). */
  lemma {:induction false} ReplicatedPresentValue(c: real, n: nat, v: real)
    ensures (1.0 - v) * PresentValue(Replicate(c, n), v) == c * (1.0 - Pow(v, n))
    decreases n
  {
    if n > 0 {
      var rest := Replicate(c, n - 1);
      assert Replicate(c, n)[1..] == rest;
      ReplicatedPresentValue(c, n - 1, v);
      GeometricStep(c, v, PresentValue(rest, v), Pow(v, n - 1));
    }
  }

  /** One step of the geometric-series induction, as plain algebra. */
  lemma GeometricStep(c: real, v: real, p: real, q: real)
    requires (1.0 - v) * p == c * (1.0 - q)
    ensures (1.0 - v) * (c + v * p) == c * (1.0 - v * q)
  {
    calc {
      (1.0 - v) * (c + v * p);
      (1.0 - v) * c + v * ((1.0 - v) * p);
      (1.0 - v) * c + v * (c * (1.0 - q));
      c * (1.0 - v * q);
    }
  }

  /** The net present value of a residual schedule is that of the constant
      schedule plus the residual discounted over the whole horizon. */
  lemma ResidualNpv(investment: real, cf: real, n: int, fv: real, r: real)
    requires n >= 1
    requires r != -1.0
    ensures Npv(ResidualSchedule(investment, cf, n, fv), r)
            == Npv(ConstantSchedule(investment, cf, n), r) + fv * Pow(1.0 / (1.0 + r), n)
  {
    var c := ConstantSchedule(investment, cf, n);
    ResidualExtendsConstant(investment, cf, n, fv);
    PresentValueBump(c, n, fv, 1.0 / (1.0 + r));
  }
}
