/** Coupon-bond valuation (src/2_topic1.py): the discounting loop of
    bond_price, accrued interest between two coupon dates, the zero-coupon
    price, and the cash-flow schedule drawn by the dashboard. Dates are
    integer day numbers; `years` and `comp` are integers, since range()
    needs an integer period count. */
module BondPricing {
  import opened Discounting
  import TimeValue

  /** Coupon paid each period: face * coupon_rate / comp. */
  function CouponPayment(face: real, couponRate: real, comp: int): real
    requires comp != 0
  {
    face * couponRate / (comp as real)
  }

  /** One plus the periodic yield: the growth factor of one period. */
  function PeriodGrowth(ytm: real, comp: int): real
    requires comp != 0
  {
    1.0 + ytm / (comp as real)
  }

  /** The value bond_price returns, or the exception it raises: the coupon
      divides by `comp`, and each discounting step divides by a power of
      the period growth factor. */
  function BondPriceSpec(face: real, couponRate: real, ytm: real, years: int, comp: int): Result<real>
    requires years * comp >= 0
  {
    if comp == 0 then Fail(ZeroDivision)
    else if PeriodGrowth(ytm, comp) == 0.0 && years * comp > 0 then Fail(ZeroDivision)
    else Ok(PriceFormula(face, CouponPayment(face, couponRate, comp), PeriodGrowth(ytm, comp), years * comp))
  }

  /** bond_price: accumulate the discounted coupons of periods 1..N, then
      add the discounted face value. */
  method BondPrice(face: real, couponRate: real, ytm: real, years: int, comp: int)
    returns (res: Result<real>)
    requires years * comp >= 0
    ensures res == BondPriceSpec(face, couponRate, ytm, years, comp)
  {
    var periods := years * comp;
    if comp == 0 {
      return Fail(ZeroDivision);
    }
    var coupon := face * couponRate / (comp as real);
    var b := 1.0 + ytm / (comp as real);
    var price := 0.0;
    var t := 1;
    while t <= periods
      invariant 1 <= t <= periods + 1
      invariant b != 0.0 || t == 1
      invariant price == Annuity(coupon, b, t - 1)
    {
      var growth := Pow(b, t);
      if growth == 0.0 {
        return Fail(ZeroDivision);
      }
      price := price + coupon / growth;
      t := t + 1;
    }
    assert (t == periods + 1 && b != 0.0) || periods == 0;
    price := price + face / Pow(b, periods);
    assert coupon == CouponPayment(face, couponRate, comp) && b == PeriodGrowth(ytm, comp);
    assert price == PriceFormula(face, coupon, b, periods);
    return Ok(price);
  }

  /** A bond whose yield equals its coupon rate is priced at its face value. */
  lemma BondPriceAtPar(face: real, rate: real, years: int, comp: int)
    requires years * comp >= 0 && comp != 0 && PeriodGrowth(rate, comp) != 0.0
    ensures BondPriceSpec(face, rate, rate, years, comp) == Ok(face)
  {
    var c, b := CouponPayment(face, rate, comp), PeriodGrowth(rate, comp);
    PriceMinusFace(face, c, b, years * comp);
    assert c - face * (b - 1.0) == 0.0;
  }

  /** With positive face and at least one period, price minus face has the
      sign of coupon rate minus yield: discount when the yield is above the
      coupon rate, premium when it is below. */
  lemma PremiumOrDiscount(face: real, couponRate: real, ytm: real, years: int, comp: int)
    requires comp > 0 && years * comp >= 1 && face > 0.0 && PeriodGrowth(ytm, comp) > 0.0
    ensures BondPriceSpec(face, couponRate, ytm, years, comp).Ok?
    ensures ytm > couponRate ==> BondPriceSpec(face, couponRate, ytm, years, comp).value < face
    ensures ytm < couponRate ==> BondPriceSpec(face, couponRate, ytm, years, comp).value > face
  {
    var c, b, n := CouponPayment(face, couponRate, comp), PeriodGrowth(ytm, comp), years * comp;
    assert c == face * couponRate / (comp as real) && b == 1.0 + ytm / (comp as real);
    ParGapSign(face, couponRate, ytm, comp as real);
    PriceVersusFace(face, c, b, n);
    assert BondPriceSpec(face, couponRate, ytm, years, comp) == Ok(PriceFormula(face, c, b, n));
  }

  /** The coupon less the face's periodic yield has the sign of coupon rate
      minus yield. */
  lemma ParGapSign(face: real, couponRate: real, ytm: real, k: real)
    requires face > 0.0 && k > 0.0
    ensures var gap := face * couponRate / k - face * ((1.0 + ytm / k) - 1.0);
            (ytm > couponRate ==> gap < 0.0) && (ytm < couponRate ==> gap > 0.0)
  {
    var gap := face * couponRate / k - face * ((1.0 + ytm / k) - 1.0);
    assert gap == (face * (couponRate - ytm)) * (1.0 / k);
    StrictSign(couponRate - ytm, face);
    StrictSign(face * (couponRate - ytm), 1.0 / k);
  }

  /** Price is strictly decreasing in yield, for non-negative coupons,
      positive face, at least one period, and yields above -comp. */
  lemma BondPriceDecreasingInYield(face: real, couponRate: real, y1: real, y2: real, years: int, comp: int)
    requires comp > 0 && years * comp >= 1 && face > 0.0 && couponRate >= 0.0
    requires PeriodGrowth(y1, comp) > 0.0 && y1 < y2
    ensures BondPriceSpec(face, couponRate, y1, years, comp).Ok?
    ensures BondPriceSpec(face, couponRate, y2, years, comp).Ok?
    ensures BondPriceSpec(face, couponRate, y1, years, comp).value
            > BondPriceSpec(face, couponRate, y2, years, comp).value
  {
    var c, n := CouponPayment(face, couponRate, comp), years * comp;
    var b1, b2 := PeriodGrowth(y1, comp), PeriodGrowth(y2, comp);
    DividePreservesOrder(y1, y2, comp as real);
    MultiplyNonNegative(face, couponRate);
    MultiplyNonNegative(face * couponRate, 1.0 / (comp as real));
    DivideAsScale(face * couponRate, comp as real);
    AnnuityScales(c, b1, n);
    AnnuityScales(c, b2, n);
    AnnuityDecreasing(b1, b2, n);
    ScaleOrder(c, Annuity(1.0, b2, n), Annuity(1.0, b1, n));
    PowMonotone(b1, b2, n);
    var p1, p2 := Pow(b1, n), Pow(b2, n);
    DivideByLarger(face, p1, p2);
    var a1, a2 := Annuity(1.0, b1, n), Annuity(1.0, b2, n);
    assert c * a2 <= c * a1;
    assert face / p1 > face / p2;
    assert c * a1 + face / p1 > c * a2 + face / p2;
    assert BondPriceSpec(face, couponRate, y1, years, comp) == Ok(PriceFormula(face, c, b1, n));
    assert BondPriceSpec(face, couponRate, y2, years, comp) == Ok(PriceFormula(face, c, b2, n));
  }

  lemma DividePreservesOrder(x: real, y: real, k: real)
    requires x < y && k > 0.0
    ensures x / k < y / k
  {
    assert y / k - x / k == (y - x) / k;
  }

  lemma DivideByLarger(f: real, p1: real, p2: real)
    requires f > 0.0 && 0.0 < p1 < p2
    ensures f / p1 > f / p2
  {
    assert f / p1 - f / p2 == f * (p2 - p1) / (p1 * p2);
    assert f * (p2 - p1) > 0.0;
    assert p1 * p2 > 0.0;
  }

  /** accrued_interest: the coupon times the elapsed fraction of the coupon
      period, with Python's ZeroDivisionError for `comp == 0` or for equal
      coupon dates. */
  function AccruedInterest(face: real, couponRate: real, settlement: int, lastCoupon: int,
                           nextCoupon: int, comp: int): Result<real>
  {
    var daysInPeriod := nextCoupon - lastCoupon;
    var daysAccrued := settlement - lastCoupon;
    if comp == 0 then Fail(ZeroDivision)
    else if daysInPeriod == 0 then Fail(ZeroDivision)
    else Ok(CouponPayment(face, couponRate, comp) * ((daysAccrued as real) / (daysInPeriod as real)))
  }

  /** Nothing has accrued on the last coupon date and the whole coupon has
      on the next one. */
  lemma AccruedInterestAtPeriodEnds(face: real, couponRate: real, lastCoupon: int, nextCoupon: int, comp: int)
    requires comp != 0 && nextCoupon != lastCoupon
    ensures AccruedInterest(face, couponRate, lastCoupon, lastCoupon, nextCoupon, comp) == Ok(0.0)
    ensures AccruedInterest(face, couponRate, nextCoupon, lastCoupon, nextCoupon, comp)
            == Ok(CouponPayment(face, couponRate, comp))
  {
    var c, k := CouponPayment(face, couponRate, comp), (nextCoupon - lastCoupon) as real;
    assert k != 0.0;
    assert k / k == 1.0;
    assert AccruedInterest(face, couponRate, nextCoupon, lastCoupon, nextCoupon, comp).value == c * (k / k);
  }

  /** Equal coupon dates make the period empty, and the division raises
      whatever the settlement date. */
  lemma AccruedInterestNeedsNonEmptyPeriod(face: real, couponRate: real, settlement: int, coupon: int, comp: int)
    ensures AccruedInterest(face, couponRate, settlement, coupon, coupon, comp) == Fail(ZeroDivision)
  {
  }

  /** Within the coupon period, a non-negative coupon accrues between zero
      and the full coupon, in proportion to the days elapsed. */
  lemma AccruedInterestWithinCoupon(face: real, couponRate: real, settlement: int, lastCoupon: int,
                                    nextCoupon: int, comp: int)
    requires comp != 0 && CouponPayment(face, couponRate, comp) >= 0.0
    requires lastCoupon <= settlement <= nextCoupon && lastCoupon < nextCoupon
    ensures AccruedInterest(face, couponRate, settlement, lastCoupon, nextCoupon, comp).Ok?
    ensures 0.0 <= AccruedInterest(face, couponRate, settlement, lastCoupon, nextCoupon, comp).value
               <= CouponPayment(face, couponRate, comp)
  {
    var c := CouponPayment(face, couponRate, comp);
    var f := (settlement - lastCoupon) as real / (nextCoupon - lastCoupon) as real;
    assert 0.0 <= f <= 1.0;
    MultiplyNonNegative(c, f);
    MultiplyNonNegative(c, 1.0 - f);
  }

  /** zero_coupon_bond_price for a whole number of years. */
  function ZeroCouponBondPrice(face: real, ytm: real, years: nat): Result<real>
  {
    if Pow(1.0 + ytm, years) == 0.0 then Fail(ZeroDivision)
    else Ok(face / Pow(1.0 + ytm, years))
  }

  /** A zero-coupon bond is an annually compounded bond paying no coupon. */
  lemma ZeroCouponIsCouponFreeBond(face: real, ytm: real, years: nat)
    ensures ZeroCouponBondPrice(face, ytm, years) == BondPriceSpec(face, 0.0, ytm, years, 1)
  {
    var b := 1.0 + ytm;
    assert PeriodGrowth(ytm, 1) == b;
    assert CouponPayment(face, 0.0, 1) == 0.0;
    if b != 0.0 {
      AnnuityScales(0.0, b, years);
    }
  }

  /** The cash-flow list the dashboard draws: `[coupon] * (years * comp)`
      with the face value added to its last entry, which raises IndexError
      when the list is empty. */
  method CashFlowSchedule(face: real, couponRate: real, years: int, comp: int)
    returns (res: Result<seq<real>>)
    ensures comp == 0 ==> res == Fail(ZeroDivision)
    ensures comp != 0 && years * comp <= 0 ==> res == Fail(IndexError)
    ensures comp != 0 && years * comp > 0 ==>
              res == Ok(Schedule(CouponPayment(face, couponRate, comp), face, years * comp))
  {
    var periods := years * comp;
    if comp == 0 {
      return Fail(ZeroDivision);
    }
    var cashFlows: seq<real> := seq(if periods > 0 then periods else 0, _ => face * couponRate / (comp as real));
    if |cashFlows| == 0 {
      return Fail(IndexError);
    }
    cashFlows := cashFlows[|cashFlows| - 1 := cashFlows[|cashFlows| - 1] + face];
    assert cashFlows == Schedule(CouponPayment(face, couponRate, comp), face, periods);
    return Ok(cashFlows);
  }

  /** The schedule has N entries, each the coupon except the last, which
      also repays the face; undiscounted it totals N coupons plus face. */
  lemma CashFlowScheduleShape(face: real, couponRate: real, years: int, comp: int)
    requires comp != 0 && years * comp > 0
    ensures var s := Schedule(CouponPayment(face, couponRate, comp), face, years * comp);
            && |s| == years * comp
            && (forall i :: 0 <= i < |s| - 1 ==> s[i] == CouponPayment(face, couponRate, comp))
            && s[|s| - 1] == CouponPayment(face, couponRate, comp) + face
            && Sum(s) == (years * comp) as real * CouponPayment(face, couponRate, comp) + face
  {
    var c, n := CouponPayment(face, couponRate, comp), years * comp;
    ScheduleShape(c, face, n);
    ScheduleTotal(c, face, n);
  }

  /** Discounting the drawn schedule period by period gives bond_price. */
  lemma CashFlowScheduleDiscountsToPrice(face: real, couponRate: real, ytm: real, years: int, comp: int)
    requires comp != 0 && years * comp > 0 && PeriodGrowth(ytm, comp) != 0.0
    ensures BondPriceSpec(face, couponRate, ytm, years, comp).Ok?
    ensures PvOf(Schedule(CouponPayment(face, couponRate, comp), face, years * comp), PeriodGrowth(ytm, comp))
            == BondPriceSpec(face, couponRate, ytm, years, comp).value
  {
    PvOfSchedule(CouponPayment(face, couponRate, comp), face, PeriodGrowth(ytm, comp), years * comp);
  }

  /** For a whole number of years, bond_valuation of src/1 (annual coupon
      rate `coupon`, frequency `m`, rate `r`) and bond_price here agree. */
  lemma BondValuationMatchesBondPrice(coupon: real, face: real, r: real, m: int, years: int)
    requires m > 0 && years >= 1 && PeriodGrowth(r, m) != 0.0
    ensures TimeValue.Truncate(years as real * (m as real)) == years * m
    ensures BondPriceSpec(face, coupon, r, years, m).Ok?
    ensures PvOf(Schedule(coupon * face / (m as real), face, years * m), 1.0 + r / (m as real))
            == BondPriceSpec(face, coupon, r, years, m).value
  {
    assert years * m >= 1 by { assert years * m >= 1 * m; }
    assert years as real * (m as real) == (years * m) as real;
    assert coupon * face / (m as real) == CouponPayment(face, coupon, m);
    CashFlowScheduleDiscountsToPrice(face, coupon, r, years, m);
  }
}
