/** Repo financing (src/4_topic1.py): repo repayment and the forward price
    with a coupon paid inside the forward window, both accruing on the
    Actual/360 money-market convention; carry and roll-down, which use no
    day count; and the repo-adjusted yield, which scales the spread by
    365/360.
    Day counts are real numbers, as the number inputs deliver them. */
module Financing {
  import opened Discounting

  /** Days in the money-market year. */
  const DayCountBasis: real := 360.0

  /** Days in the calendar year used to annualise the repo spread. */
  const CalendarYear: real := 365.0

  /** A repo is only booked for a positive term, a non-negative rate and a
      positive principal. */
  predicate ValidRepo(principal: real, repoRate: real, days: real)
  {
    !(days <= 0.0 || repoRate < 0.0 || principal <= 0.0)
  }

  /** The amount repaid at the end of the repo: principal plus simple
      interest on Actual/360, or 0.0 when the trade is not valid. */
  function RepoRepayment(principal: real, repoRate: real, days: real): (repayment: real)
    ensures !ValidRepo(principal, repoRate, days) ==> repayment == 0.0
    ensures ValidRepo(principal, repoRate, days) ==> repayment >= principal > 0.0
  {
    if days <= 0.0 || repoRate < 0.0 || principal <= 0.0 then 0.0
    else
      var interest := principal * repoRate * days / DayCountBasis;
      assert interest >= 0.0 by { NonNegativeProduct(principal, repoRate, days); }
      principal + interest
  }

  lemma NonNegativeProduct(x: real, y: real, z: real)
    requires x >= 0.0 && y >= 0.0 && z >= 0.0
    ensures x * y * z / DayCountBasis >= 0.0
  {
    assert x * y >= 0.0;
    assert x * y * z >= 0.0;
  }

  /** A longer repo never costs less to repay. */
  lemma RepoRepaymentMonotoneInDays(principal: real, repoRate: real, days1: real, days2: real)
    requires ValidRepo(principal, repoRate, days1) && days1 <= days2
    ensures RepoRepayment(principal, repoRate, days1) <= RepoRepayment(principal, repoRate, days2)
  {
    var pr := principal * repoRate;
    assert pr >= 0.0;
    assert pr * days1 <= pr * days2 by { ScaleOrder(pr, days1, days2); }
    assert RepoRepayment(principal, repoRate, days1) == principal + pr * days1 / DayCountBasis;
    assert RepoRepayment(principal, repoRate, days2) == principal + pr * days2 / DayCountBasis;
  }

  /** One million at 3.5% for 30 days repays 1,002,916.66...: exactly
      3008750/3. */
  lemma RepoRepaymentExample()
    ensures RepoRepayment(1000000.0, 0.035, 30.0) == 3008750.0 / 3.0
  {
    assert 1000000.0 * 0.035 * 30.0 == 1050000.0;
  }

  /** The cost of financing the dirty price over the forward window. */
  function FinancingCost(dirtyPrice: real, repoRate: real, daysToForward: real): (cost: real)
    ensures dirtyPrice >= 0.0 && repoRate >= 0.0 && daysToForward >= 0.0 ==> cost >= 0.0
  {
    var cost := dirtyPrice * repoRate * daysToForward / DayCountBasis;
    assert dirtyPrice >= 0.0 && repoRate >= 0.0 && daysToForward >= 0.0 ==> cost >= 0.0 by {
      if dirtyPrice >= 0.0 && repoRate >= 0.0 && daysToForward >= 0.0 {
        NonNegativeProduct(dirtyPrice, repoRate, daysToForward);
      }
    }
    cost
  }

  /** A coupon is paid inside the forward window when its date falls
      strictly between today and the forward date. */
  predicate CouponInWindow(daysToForward: real, daysToCoupon: real)
  {
    daysToCoupon < daysToForward && daysToCoupon > 0.0
  }

  /** The forward dirty price: the dirty price grown at the repo rate, less
      the coupon received in the window grown to the forward date. The
      coupon and its date default to 0, so no coupon is deducted. */
  function ForwardPrice(dirtyPrice: real, repoRate: real, daysToForward: real,
                        coupon: real := 0.0, daysToCoupon: real := 0.0): (forward: real)
    ensures daysToForward <= 0.0 ==> forward == dirtyPrice
    ensures daysToForward > 0.0 && !CouponInWindow(daysToForward, daysToCoupon) ==>
              forward == dirtyPrice + FinancingCost(dirtyPrice, repoRate, daysToForward)
  {
    if daysToForward <= 0.0 then dirtyPrice
    else
      var couponFv := if CouponInWindow(daysToForward, daysToCoupon)
                      then coupon * (1.0 + repoRate * (daysToForward - daysToCoupon) / DayCountBasis)
                      else 0.0;
      var grown := dirtyPrice * (1.0 + repoRate * daysToForward / DayCountBasis);
      assert grown == dirtyPrice + FinancingCost(dirtyPrice, repoRate, daysToForward);
      grown - couponFv
  }

  /** A coupon inside the window is deducted together with the repo
      interest it earns from its payment date to the forward date. */
  lemma ForwardWithCoupon(dirtyPrice: real, repoRate: real, daysToForward: real,
                          coupon: real, daysToCoupon: real)
    requires daysToForward > 0.0 && CouponInWindow(daysToForward, daysToCoupon)
    ensures ForwardPrice(dirtyPrice, repoRate, daysToForward, coupon, daysToCoupon)
            == dirtyPrice + FinancingCost(dirtyPrice, repoRate, daysToForward)
               - coupon * (1.0 + repoRate * (daysToForward - daysToCoupon) / DayCountBasis)
  {
  }

  /** For a valid repo with no coupon in the window, the forward price is
      what a repo lending the dirty price for the same term repays. */
  lemma ForwardIsRepoRepayment(dirtyPrice: real, repoRate: real, daysToForward: real,
                               coupon: real, daysToCoupon: real)
    requires ValidRepo(dirtyPrice, repoRate, daysToForward)
    requires !CouponInWindow(daysToForward, daysToCoupon)
    ensures ForwardPrice(dirtyPrice, repoRate, daysToForward, coupon, daysToCoupon)
            == RepoRepayment(dirtyPrice, repoRate, daysToForward)
  {
  }

  /** With a non-negative rate, a larger coupon in the window never raises
      the forward price. */
  lemma ForwardNonIncreasingInCoupon(dirtyPrice: real, repoRate: real, daysToForward: real,
                                      coupon1: real, coupon2: real, daysToCoupon: real)
    requires repoRate >= 0.0 && coupon1 <= coupon2
    ensures ForwardPrice(dirtyPrice, repoRate, daysToForward, coupon2, daysToCoupon)
            <= ForwardPrice(dirtyPrice, repoRate, daysToForward, coupon1, daysToCoupon)
  {
    if daysToForward > 0.0 && CouponInWindow(daysToForward, daysToCoupon) {
      MultiplyNonNegative(repoRate, daysToForward - daysToCoupon);
      var base := dirtyPrice + FinancingCost(dirtyPrice, repoRate, daysToForward);
      var g := 1.0 + repoRate * (daysToForward - daysToCoupon) / DayCountBasis;
      ForwardWithCoupon(dirtyPrice, repoRate, daysToForward, coupon1, daysToCoupon);
      ForwardWithCoupon(dirtyPrice, repoRate, daysToForward, coupon2, daysToCoupon);
      assert ForwardPrice(dirtyPrice, repoRate, daysToForward, coupon1, daysToCoupon) == base - coupon1 * g;
      assert ForwardPrice(dirtyPrice, repoRate, daysToForward, coupon2, daysToCoupon) == base - coupon2 * g;
      ScaleOrder(g, coupon1, coupon2);
      assert coupon1 * g <= coupon2 * g;
      assert base - coupon2 * g <= base - coupon1 * g;
    } else {
      assert ForwardPrice(dirtyPrice, repoRate, daysToForward, coupon2, daysToCoupon)
             == ForwardPrice(dirtyPrice, repoRate, daysToForward, coupon1, daysToCoupon);
    }
  }

  /** Carry: what the forward gains over the spot. */
  function Carry(spotPrice: real, forwardPrice: real): real
  {
    forwardPrice - spotPrice
  }

  /** With no coupon in the window, the carry from the dirty price to its
      forward is exactly the financing cost. */
  lemma CarryIsFinancingCost(dirtyPrice: real, repoRate: real, daysToForward: real,
                             coupon: real, daysToCoupon: real)
    requires daysToForward > 0.0 && !CouponInWindow(daysToForward, daysToCoupon)
    ensures Carry(dirtyPrice, ForwardPrice(dirtyPrice, repoRate, daysToForward, coupon, daysToCoupon))
            == FinancingCost(dirtyPrice, repoRate, daysToForward)
  {
  }

  /** Roll-down: the current yield less the latest historical yield, or 0.0
      with no history. */
  function RollDown(currentYield: real, historicalYields: seq<real>): real
  {
    if |historicalYields| == 0 then 0.0
    else currentYield - historicalYields[|historicalYields| - 1]
  }

  /** Only the latest historical yield matters. */
  lemma RollDownDependsOnLast(currentYield: real, history1: seq<real>, history2: seq<real>)
    requires |history1| > 0 && |history2| > 0
    requires history1[|history1| - 1] == history2[|history2| - 1]
    ensures RollDown(currentYield, history1) == RollDown(currentYield, history2)
  {
  }

  /** A history that ends at the current yield has rolled down nothing. */
  lemma RollDownZeroAtCurrent(currentYield: real, history: seq<real>)
    ensures RollDown(currentYield, history + [currentYield]) == 0.0
  {
  }

  /** The adjustment applies only with a positive PV01 and holding period. */
  predicate AdjustmentApplies(holdingDays: real, pv01: real)
  {
    !(pv01 <= 0.0 || holdingDays <= 0.0)
  }

  /** The special-collateral yield adjusted by the GC-special repo spread
      earned over the holding period, annualised on 365/360 and converted
      to yield through PV01. */
  function RepoAdjustedYield(specialYield: real, gcRate: real, specialRate: real,
                             holdingDays: real, pv01: real): (adjusted: real)
    ensures !AdjustmentApplies(holdingDays, pv01) ==> adjusted == specialYield
    ensures gcRate == specialRate ==> adjusted == specialYield
    ensures AdjustmentApplies(holdingDays, pv01) ==>
              (adjusted > specialYield <==> gcRate > specialRate)
              && (adjusted < specialYield <==> gcRate < specialRate)
  {
    if pv01 <= 0.0 || holdingDays <= 0.0 then specialYield
    else
      var spread := gcRate - specialRate;
      var adjustment := (spread * CalendarYear * holdingDays) / (DayCountBasis * pv01 * 100.0);
      assert adjustment > 0.0 <==> spread > 0.0 by { SignOfAdjustment(spread, holdingDays, pv01); }
      assert adjustment < 0.0 <==> spread < 0.0 by { SignOfAdjustment(spread, holdingDays, pv01); }
      specialYield + adjustment
  }

  lemma SignOfAdjustment(spread: real, holdingDays: real, pv01: real)
    requires holdingDays > 0.0 && pv01 > 0.0
    ensures var adjustment := (spread * CalendarYear * holdingDays) / (DayCountBasis * pv01 * 100.0);
            (adjustment > 0.0 <==> spread > 0.0) && (adjustment < 0.0 <==> spread < 0.0)
  {
    var numerator := spread * CalendarYear * holdingDays;
    var denominator := DayCountBasis * pv01 * 100.0;
    assert denominator > 0.0;
    var scale := CalendarYear * holdingDays;
    assert scale > 0.0;
    assert numerator == spread * scale;
    assert numerator > 0.0 <==> spread > 0.0 by { StrictSign(spread, scale); }
    assert numerator < 0.0 <==> spread < 0.0 by { StrictSign(spread, scale); }
    assert numerator / denominator > 0.0 <==> numerator > 0.0 by { StrictSign(numerator, 1.0 / denominator); }
    assert numerator / denominator < 0.0 <==> numerator < 0.0 by { StrictSign(numerator, 1.0 / denominator); }
  }

  /** The adjustment grows in proportion to the holding period. */
  lemma RepoAdjustmentProportionalToDays(specialYield: real, gcRate: real, specialRate: real,
                                          holdingDays: real, pv01: real, factor: real)
    requires AdjustmentApplies(holdingDays, pv01) && factor > 0.0
    ensures RepoAdjustedYield(specialYield, gcRate, specialRate, holdingDays * factor, pv01) - specialYield
            == factor * (RepoAdjustedYield(specialYield, gcRate, specialRate, holdingDays, pv01) - specialYield)
  {
    var spread := gcRate - specialRate;
    var denominator := DayCountBasis * pv01 * 100.0;
    assert holdingDays * factor > 0.0;
    var a1 := (spread * CalendarYear * holdingDays) / denominator;
    var a2 := (spread * CalendarYear * (holdingDays * factor)) / denominator;
    assert spread * CalendarYear * (holdingDays * factor) == factor * (spread * CalendarYear * holdingDays);
    assert a2 == factor * a1;
  }
}
