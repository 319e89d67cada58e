/** Time value of money: discrete and simple compounding, discount factors
    and a bond valued from its list of cash flows (src/1_topic1.py).
    The compounding frequency `m` is an integer (a slider stepping by 1);
    the horizon `t` is in years. */
module TimeValue {
  import opened Discounting

  /** The exponent T * m is a whole, non-negative number of periods. */
  predicate WholePeriods(t: real, m: int)
  {
    var x := t * (m as real);
    x >= 0.0 && x.Floor as real == x
  }

  function Periods(t: real, m: int): nat
    requires WholePeriods(t, m)
  {
    (t * (m as real)).Floor
  }

  /** (1 + r/m) ** (T*m); the caller has ruled out `m == 0`, where `r / m`
      raises ZeroDivisionError. */
  function Growth(r: real, m: int, t: real): real
    requires m != 0 && WholePeriods(t, m)
  {
    Pow(1.0 + r / (m as real), Periods(t, m))
  }

  /** FV = PV * (1 + r/m)^(T*m). */
  function FutureValue(pv: real, r: real, m: int, t: real): Result<real>
    requires WholePeriods(t, m)
  {
    if m == 0 then Fail(ZeroDivision) else Ok(pv * Growth(r, m, t))
  }

  /** FV = PV * (1 + r*T). */
  function FutureValueSimple(pv: real, r: real, t: real): real
  {
    pv * (1.0 + r * t)
  }

  /** PV = FV / (1 + r/m)^(T*m); dividing by a zero growth factor raises. */
  function PresentValue(fv: real, r: real, m: int, t: real): Result<real>
    requires WholePeriods(t, m)
  {
    if m == 0 then Fail(ZeroDivision)
    else if Growth(r, m, t) == 0.0 then Fail(ZeroDivision)
    else Ok(fv / Growth(r, m, t))
  }

  /** D(T) = 1 / (1 + r/m)^(T*m). */
  function DiscountFactor(r: real, m: int, t: real): Result<real>
    requires WholePeriods(t, m)
  {
    if m == 0 then Fail(ZeroDivision)
    else if Growth(r, m, t) == 0.0 then Fail(ZeroDivision)
    else Ok(1.0 / Growth(r, m, t))
  }

  /** Nothing is discounted over a zero horizon, whatever the rate. */
  lemma DiscountFactorAtZero(r: real, m: int)
    requires m != 0
    ensures DiscountFactor(r, m, 0.0) == Ok(1.0)
  {
    assert Periods(0.0, m) == 0;
  }

  /** Present value is the future value times the discount factor, and the
      two fail together. */
  lemma PresentValueIsDiscounted(fv: real, r: real, m: int, t: real)
    requires WholePeriods(t, m)
    ensures PresentValue(fv, r, m, t).Ok? == DiscountFactor(r, m, t).Ok?
    ensures PresentValue(fv, r, m, t).Ok? ==>
              PresentValue(fv, r, m, t).value == fv * DiscountFactor(r, m, t).value
  {
    if m != 0 && Growth(r, m, t) != 0.0 {
      DivideAsScale(fv, Growth(r, m, t));
    }
  }

  /** Discounting a compounded amount over the same horizon gives it back. */
  lemma PresentValueUndoesFutureValue(pv: real, r: real, m: int, t: real)
    requires WholePeriods(t, m) && m != 0 && 1.0 + r / (m as real) != 0.0
    ensures FutureValue(pv, r, m, t).Ok?
    ensures PresentValue(FutureValue(pv, r, m, t).value, r, m, t) == Ok(pv)
  {
    var g := Growth(r, m, t);
    assert FutureValue(pv, r, m, t).value == pv * g;
    assert g != 0.0;
    assert PresentValue(pv * g, r, m, t) == Ok((pv * g) / g);
    CancelFactor(pv, g);
  }

  /** Compounding a discounted amount over the same horizon gives it back. */
  lemma FutureValueUndoesPresentValue(fv: real, r: real, m: int, t: real)
    requires WholePeriods(t, m) && m != 0 && 1.0 + r / (m as real) != 0.0
    ensures PresentValue(fv, r, m, t).Ok?
    ensures FutureValue(PresentValue(fv, r, m, t).value, r, m, t) == Ok(fv)
  {
    var g := Growth(r, m, t);
    assert g != 0.0;
    assert PresentValue(fv, r, m, t) == Ok(fv / g);
    assert FutureValue(fv / g, r, m, t).value == (fv / g) * g;
    CancelFactor(fv, g);
  }

  lemma CancelFactor(x: real, g: real)
    requires g != 0.0
    ensures (x * g) / g == x && (x / g) * g == x
  {
  }

  /** Simple interest starts at PV and grows by PV * r per year. */
  lemma FutureValueSimpleIsAffine(pv: real, r: real, t1: real, t2: real)
    ensures FutureValueSimple(pv, r, 0.0) == pv
    ensures FutureValueSimple(pv, r, t2) - FutureValueSimple(pv, r, t1) == pv * r * (t2 - t1)
  {
  }

  /** With non-negative rate the future value never falls below PV. */
  lemma FutureValueAtLeastPresent(pv: real, r: real, m: int, t: real)
    requires WholePeriods(t, m) && pv >= 0.0 && r >= 0.0 && m > 0
    ensures FutureValue(pv, r, m, t).Ok? && FutureValue(pv, r, m, t).value >= pv
  {
    var b := 1.0 + r / (m as real);
    assert b >= 1.0;
    PowAtLeastOne(b, Periods(t, m));
    var g := Growth(r, m, t);
    assert pv * g >= pv * 1.0 by { MultiplyNonNegative(pv, g - 1.0); }
  }

  /** With non-negative rate the discount factor lies in (0, 1]. */
  lemma DiscountFactorInUnitInterval(r: real, m: int, t: real)
    requires WholePeriods(t, m) && r >= 0.0 && m > 0
    ensures DiscountFactor(r, m, t).Ok?
    ensures 0.0 < DiscountFactor(r, m, t).value <= 1.0
  {
    var b := 1.0 + r / (m as real);
    assert b >= 1.0;
    PowAtLeastOne(b, Periods(t, m));
  }

  /** int(x): Python truncates toward zero. */
  function Truncate(x: real): int
  {
    if x >= 0.0 then x.Floor else -((-x).Floor)
  }

  /** Length of np.arange(1/m, T + 1/m, 1/m): ceil(T * m), or 0 if that
      is not positive. */
  function ArangeLength(t: real, m: int): nat
  {
    var x := t * (m as real);
    if x <= 0.0 then 0 else -((-x).Floor)
  }

  /** The payment times 1/m, 2/m, ... of np.arange, taken as exact values. */
  function ArangeTimes(t: real, m: int): (times: seq<real>)
    requires m != 0
    ensures |times| == ArangeLength(t, m)
    ensures t * (m as real) > 0.0 ==> (|times| - 1) as real < t * (m as real) <= |times| as real
    ensures t * (m as real) <= 0.0 ==> |times| == 0
    ensures forall i :: 0 <= i < |times| ==> times[i] * (m as real) == (i + 1) as real
  {
    var times := seq(ArangeLength(t, m), i => (i + 1) as real / (m as real));
    assert forall i :: 0 <= i < |times| ==> times[i] * (m as real) == (i + 1) as real by {
      forall i | 0 <= i < |times|
        ensures times[i] * (m as real) == (i + 1) as real
      {
        CancelFactor((i + 1) as real, m as real);
      }
    }
    times
  }

  /** Every coupon has a payment time: int(T*m) <= ceil(T*m). */
  lemma CouponsWithinTimes(t: real, m: int)
    requires m != 0
    ensures Truncate(t * (m as real)) <= ArangeLength(t, m)
  {
  }

  /** k/m years at frequency m is exactly k periods. */
  lemma WholeAfterScaling(x: real, m: int, k: nat)
    requires m != 0 && x == k as real / (m as real)
    ensures WholePeriods(x, m) && Periods(x, m) == k
  {
    CancelFactor(k as real, m as real);
    assert x * (m as real) == k as real;
    assert (k as real).Floor == k;
  }

  /** The i-th payment time is i + 1 whole periods away. */
  lemma ArangeTimeIsWhole(t: real, m: int, i: nat)
    requires m != 0 && i < ArangeLength(t, m)
    ensures WholePeriods(ArangeTimes(t, m)[i], m)
    ensures Periods(ArangeTimes(t, m)[i], m) == i + 1
  {
    WholeAfterScaling(ArangeTimes(t, m)[i], m, i + 1);
  }

  /** The discount factor at the i-th payment time is one over the growth
      factor raised to i + 1, and fails when the growth factor is zero. */
  lemma DiscountFactorAtPaymentTime(r: real, m: int, t: real, i: nat)
    requires m != 0 && i < ArangeLength(t, m)
    ensures WholePeriods(ArangeTimes(t, m)[i], m)
    ensures var b := 1.0 + r / (m as real);
            && (b == 0.0 ==> DiscountFactor(r, m, ArangeTimes(t, m)[i]) == Fail(ZeroDivision))
            && (b != 0.0 ==> DiscountFactor(r, m, ArangeTimes(t, m)[i]) == Ok(1.0 / Pow(b, i + 1)))
  {
    ArangeTimeIsWhole(t, m, i);
    var b := 1.0 + r / (m as real);
    assert b == 0.0 ==> Pow(b, i + 1) == 0.0;
  }

  /** `[c] * n` with `face` added to its last entry is the schedule. */
  lemma LevelListWithFace(c: real, face: real, n: nat)
    requires n >= 1
    ensures seq(n, _ => c)[n - 1 := c + face] == Schedule(c, face, n)
  {
  }

  /** Adding the next flow times its discount factor to the present value
      of the flows so far gives the present value of one more flow. */
  lemma PvOfStep(flows: seq<real>, b: real, i: nat, pv: real, df: real)
    requires b != 0.0 && i < |flows|
    requires pv == PvOf(flows[..i], b) && df == 1.0 / Pow(b, i + 1)
    ensures pv + flows[i] * df == PvOf(flows[..i + 1], b)
  {
    assert flows[..i + 1][..i] == flows[..i];
    DivideAsScale(flows[i], Pow(b, i + 1));
  }

  /** The loop of bond_valuation: add each flow times the discount factor
      at its payment time; a zero growth factor fails on the first flow. */
  method DiscountFlows(cashFlows: seq<real>, times: seq<real>, r: real, m: int, t: real)
    returns (res: Result<real>)
    requires m != 0 && times == ArangeTimes(t, m) && |cashFlows| <= |times|
    ensures 1.0 + r / (m as real) == 0.0 && |cashFlows| > 0 ==> res == Fail(ZeroDivision)
    ensures |cashFlows| == 0 ==> res == Ok(0.0)
    ensures 1.0 + r / (m as real) != 0.0 ==> res == Ok(PvOf(cashFlows, 1.0 + r / (m as real)))
  {
    var b := 1.0 + r / (m as real);
    var pv := 0.0;
    var i := 0;
    while i < |cashFlows|
      invariant 0 <= i <= |cashFlows|
      invariant b == 0.0 ==> i == 0
      invariant i == 0 ==> pv == 0.0
      invariant b != 0.0 ==> pv == PvOf(cashFlows[..i], b)
    {
      DiscountFactorAtPaymentTime(r, m, t, i);
      var df := DiscountFactor(r, m, times[i]);
      if df.Fail? {
        return Fail(df.fault);
      }
      PvOfStep(cashFlows, b, i, pv, df.value);
      pv := pv + cashFlows[i] * df.value;
      i := i + 1;
    }
    assert cashFlows[..i] == cashFlows;
    return Ok(pv);
  }

  /** What bond_valuation returns: the price, the cash-flow list and the
      payment times. */
  datatype Valuation = Valuation(pv: real, cashFlows: seq<real>, times: seq<real>)

  /** The price of a bond with `int(T*m)` coupons of `coupon * face / m`,
      the last one also repaying `face`, discounted period by period. */
  method BondValuation(coupon: real, face: real, r: real, m: int, t: real)
    returns (res: Result<Valuation>)
    ensures m == 0 ==> res == Fail(ZeroDivision)
    ensures m != 0 && Truncate(t * (m as real)) <= 0 ==> res == Fail(IndexError)
    ensures m != 0 && Truncate(t * (m as real)) > 0 && 1.0 + r / (m as real) == 0.0 ==>
              res == Fail(ZeroDivision)
    ensures m != 0 && Truncate(t * (m as real)) > 0 && 1.0 + r / (m as real) != 0.0 ==>
              res.Ok?
    ensures res.Ok? ==> m != 0 && Truncate(t * (m as real)) > 0 && 1.0 + r / (m as real) != 0.0
    ensures res.Ok? ==>
              var b := 1.0 + r / (m as real);
              && res.value.cashFlows == Schedule(coupon * face / (m as real), face, Truncate(t * (m as real)))
              && res.value.times == ArangeTimes(t, m)
              && res.value.pv == PvOf(res.value.cashFlows, b)
  {
    var periods := Truncate(t * (m as real));
    if m == 0 {
      return Fail(ZeroDivision);
    }
    var couponPayment := coupon * face / (m as real);
    var cashFlows: seq<real> := seq(if periods > 0 then periods else 0, _ => couponPayment);
    if |cashFlows| == 0 {
      return Fail(IndexError);
    }
    LevelListWithFace(couponPayment, face, periods);
    cashFlows := cashFlows[|cashFlows| - 1 := cashFlows[|cashFlows| - 1] + face];
    var times := ArangeTimes(t, m);
    CouponsWithinTimes(t, m);

    var pv := DiscountFlows(cashFlows, times, r, m, t);
    if pv.Fail? {
      return Fail(pv.fault);
    }
    return Ok(Valuation(pv.value, cashFlows, times));
  }
}
