# Fixed-income calculation core in Dafny

This project models the calculation functions behind four fixed-income
dashboards and proves properties about them:

- **Time value of money** (`time_value.dfy`, module `TimeValue`) covers
  discrete and simple compounding, present value and discount factors. It
  also covers `bond_valuation`, which builds a list of cash flows, adds the
  face value to the last flow in place, and sums the discounted flows in a
  loop.
- **Bond pricing** (`bond_pricing.dfy`, module `BondPricing`) covers the
  `bond_price` discounting loop, accrued interest between two coupon dates,
  the zero-coupon price, and the cash-flow schedule the dashboard draws.
- **Risk measures** (`risk_measures.dfy`, module `RiskMeasures`) covers
  `calculate_bond_price` (two periods a year by default) and the
  one-basis-point finite differences PV01, PVBP and convexity.
- **Financing** (`financing.dfy`, module `Financing`) covers repo repayment,
  the forward price with a coupon paid inside the window, carry, roll-down
  and the repo-adjusted yield. Repo repayment and the forward price accrue
  on the Actual/360 money-market convention; carry and roll-down use no day
  count; the repo-adjusted yield scales the spread by 365/360.
- **Shared discounting** (`discounting.dfy`, module `Discounting`) holds the
  pieces used by several modules:
  - `Pow` for whole exponents;
  - the level annuity;
  - the bond price formula `PriceFormula` (the annuity of the coupons plus
    the discounted face);
  - the schedule `[c] * n` with the face added to its last entry;
  - the entry-by-entry present value `PvOf`;
  - the lemmas relating these, including convexity of the price in the
    growth factor.

Python floats are modelled as exact `real` numbers. Python exceptions are
modelled as a `Result` value: `Fail(ZeroDivision)` stands for
`ZeroDivisionError` and `Fail(IndexError)` for `IndexError`. Within the
modelled domain they are not modelled as preconditions; the two exceptions
that lie outside it (a negative period count and a non-integer `range()`
argument) are listed under "Left out".

The loops of the source are Dafny methods. Each method is proved equal to a
specification function:
- `BondPrice` and `CalculateBondPrice` are proved equal to `BondPriceSpec`;
- `BondValuation` is proved equal to `PvOf` over `Schedule`;
- `CashFlowSchedule` is proved equal to `Schedule`.

The properties are proved about those specification functions.

Dates in `accrued_interest` are integer day numbers. Day counts in the
financing functions are reals.

Input checking follows the code:
- `accrued_interest` does not check the order of its dates. It raises
  `ZeroDivisionError` only when the compounding frequency is 0 or the two
  coupon dates coincide. Otherwise it returns the coupon times
  days accrued / days in the period, whatever the signs of those day
  counts, and so does `BondPricing.AccruedInterest`.
- The bond and risk functions do not check their inputs, so a non-positive
  face value is priced like any other. A non-positive period count makes `cash_flows[-1]` raise
  IndexError in `bond_valuation` and in the drawn cash-flow schedule, and
  `bond_price` returns the face value for zero periods (with a non-zero
  frequency).
- The financing functions guard theirs: repo repayment returns 0.0 unless
  the term and principal are positive and the rate is non-negative
  (`Financing.ValidRepo`), the forward price returns the dirty price when
  the forward date is not in the future, and the repo-adjusted yield
  returns the special yield unchanged unless PV01 and the holding period
  are positive (`Financing.AdjustmentApplies`).

## Model

| member | source | states |
|---|---|---|
| Discounting.Pow | src/2_topic1.py:17 | a positive growth factor has positive powers, and a non-zero one has non-zero powers, so discounting by it never divides by zero |
| Discounting.PowAtLeastOne | src/1_topic1.py:14 | a growth factor of at least 1 compounds to at least 1 over any number of periods |
| Discounting.PowMonotone | src/2_topic1.py:17 | powers keep the order of positive growth factors, strictly so after at least one period |
| Discounting.AnnuityScales | src/2_topic1.py:14-17 | the discounted coupon stream is the coupon times the unit annuity |
| Discounting.AnnuityPositive | src/2_topic1.py:16-17 | with a positive growth factor and at least one period the unit annuity is positive |
| Discounting.AnnuityDecreasing | src/2_topic1.py:16-17 | a larger growth factor strictly lowers the unit annuity |
| Discounting.PriceMinusFace | src/2_topic1.py:12-19 | price minus face equals (coupon − face·periodic yield) times the unit annuity, which is the identity behind par, premium and discount |
| Discounting.PriceVersusFace | src/2_topic1.py:12-19 | with a positive growth factor and at least one period, the price is below face when the coupon is below face times the periodic yield, and above face when it is above |
| Discounting.TermConvex | src/3_topic1.py:31-35 | each discount factor 1/b^t is convex in the growth factor b, so its two bumped values average at least the unbumped one |
| Discounting.AnnuityConvex | src/3_topic1.py:31-35 | a non-negative coupon stream is convex in the growth factor |
| Discounting.PriceConvex | src/3_topic1.py:31-35 | the second difference P(b+d) + P(b−d) − 2P(b) is never negative for non-negative coupon and face |
| Discounting.ScheduleShape | src/2_topic1.py:230-231 | the schedule has n entries, all equal to the coupon except the last, which is coupon plus face |
| Discounting.ScheduleTotal | src/2_topic1.py:230-231 | the undiscounted schedule totals n coupons plus the face |
| Discounting.PvOfLevel | src/1_topic1.py:42-44 | discounting a level list of flows period by period gives the annuity |
| Discounting.PvOfSchedule | src/1_topic1.py:38-44 | discounting the schedule entry by entry gives the price formula `PriceFormula` |
| TimeValue.DiscountFactorAtZero | src/1_topic1.py:29-32 | the discount factor over a zero horizon is 1 for every rate and every non-zero frequency |
| TimeValue.PresentValueIsDiscounted | src/1_topic1.py:24-32 | present value is defined exactly when the discount factor is, and then equals the future value times the discount factor |
| TimeValue.PresentValueUndoesFutureValue | src/1_topic1.py:11-27 | discounting a compounded amount over the same horizon returns the original amount |
| TimeValue.FutureValueUndoesPresentValue | src/1_topic1.py:11-27 | compounding a discounted amount over the same horizon returns the original amount |
| TimeValue.FutureValueSimpleIsAffine | src/1_topic1.py:20-22 | simple interest starts at PV and grows by PV·r per year |
| TimeValue.FutureValueAtLeastPresent | src/1_topic1.py:11-14 | with non-negative amount and rate and positive frequency, the future value is defined and at least the present value |
| TimeValue.DiscountFactorInUnitInterval | src/1_topic1.py:29-32 | with non-negative rate and positive frequency, the discount factor is defined and lies in (0, 1] |
| TimeValue.ArangeTimes | src/1_topic1.py:41 | the number of payment times n satisfies n − 1 < T·m ≤ n when T·m is positive (that is, n = ceil(T·m)), there are none when T·m is not positive, and the i-th time (from 0) is exactly i + 1 periods, times[i]·m = i + 1 |
| TimeValue.CouponsWithinTimes | src/1_topic1.py:36-41 | int(T·m) never exceeds the number of payment times, so `times[i]` exists for every cash flow |
| TimeValue.ArangeTimeIsWhole | src/1_topic1.py:41-44 | the i-th payment time is exactly i + 1 whole periods |
| TimeValue.DiscountFactorAtPaymentTime | src/1_topic1.py:44 | the discount factor at the i-th payment time is 1/(1 + r/m)^(i+1), and fails with ZeroDivision when 1 + r/m is zero |
| TimeValue.LevelListWithFace | src/1_topic1.py:38-39 | `[c] * n` with face added to its last entry is the schedule |
| TimeValue.DiscountFlows | src/1_topic1.py:42-44 | the accumulation loop returns the entry-by-entry present value of the flows, or fails with ZeroDivision on the first flow when 1 + r/m is zero; with no flows it returns 0.0 whatever the rate |
| TimeValue.BondValuation | src/1_topic1.py:34-45 | fails with ZeroDivision for m = 0, with IndexError when int(T·m) ≤ 0, and with ZeroDivision for a zero growth factor; otherwise returns the schedule of int(T·m) coupons of coupon·face/m with face added to the last, the exact payment times, and the schedule's present value |
| BondPricing.BondPrice | src/2_topic1.py:12-19 | the loop returns BondPriceSpec, the price formula, or its ZeroDivision for comp = 0 or a zero growth factor over a positive number of periods |
| BondPricing.BondPriceAtPar | src/2_topic1.py:135 | a bond whose yield equals its coupon rate is priced at face value |
| BondPricing.PremiumOrDiscount | src/2_topic1.py:136-137 | yield above the coupon rate gives a price below face, and yield below it gives a price above face |
| BondPricing.BondPriceDecreasingInYield | src/2_topic1.py:12-19 | for positive face and non-negative coupon, a higher yield gives a strictly lower price |
| BondPricing.AccruedInterestAtPeriodEnds | src/2_topic1.py:31-35 | nothing has accrued on the last coupon date, and the full coupon has accrued on the next one |
| BondPricing.AccruedInterestNeedsNonEmptyPeriod | src/2_topic1.py:32-35 | equal coupon dates divide by zero whatever the settlement date |
| BondPricing.AccruedInterestWithinCoupon | src/2_topic1.py:31-35 | settlement within the period accrues between zero and the full (non-negative) coupon |
| BondPricing.ZeroCouponIsCouponFreeBond | src/2_topic1.py:38-39 | the zero-coupon price, and its failure, equal those of an annual bond with no coupon |
| BondPricing.CashFlowSchedule | src/2_topic1.py:229-231 | fails with ZeroDivision for comp = 0 and with IndexError for no periods; otherwise builds the level coupon list with face added to the last entry |
| BondPricing.CashFlowScheduleShape | src/2_topic1.py:229-231 | the drawn schedule has years·comp entries, each the coupon except the last, which adds the face, and it totals N coupons plus face |
| BondPricing.CashFlowScheduleDiscountsToPrice | src/2_topic1.py:12-19 | discounting the drawn schedule period by period gives bond_price |
| BondPricing.BondValuationMatchesBondPrice | src/1_topic1.py:34-45 | for whole years, bond_valuation's cash flows discount to the same value as bond_price |
| RiskMeasures.CalculateBondPrice | src/3_topic1.py:10-19 | the loop computes the same price, or the same failure, as bond_price at that frequency |
| RiskMeasures.Pv01Positive | src/3_topic1.py:21-24 | for positive face, non-negative coupon, at least one year and a positive growth factor, PV01 is defined and positive |
| RiskMeasures.PriceAffineInCoupon | src/3_topic1.py:10-19 | the price is the zero-coupon price plus the coupon times the unit annuity, and the two fail together |
| RiskMeasures.PvbpAsAnnuity | src/3_topic1.py:26-29 | PVBP equals 100 times the bumped coupon face·bp/2 discounted as an annuity, with no dependence on the coupon rate |
| RiskMeasures.PvbpIndependentOfCoupon | src/3_topic1.py:26-29 | PVBP, including whether it fails, is the same for every coupon rate |
| RiskMeasures.PvbpPositive | src/3_topic1.py:26-29 | for positive face, at least one year and a positive growth factor, PVBP is defined and positive |
| RiskMeasures.PriceNonNegative | src/3_topic1.py:10-19 | non-negative face and coupon with a positive growth factor give a defined, non-negative price |
| RiskMeasures.ConvexityNonNegative | src/3_topic1.py:31-35 | for non-negative flows with the downward-bumped growth factor positive, convexity is defined exactly when the base price is non-zero, and is then non-negative |
| RiskMeasures.ConvexityUndefinedAtZeroPrice | src/3_topic1.py:35 | a zero base price makes convexity divide by zero |
| Financing.RepoRepayment | src/4_topic1.py:12-18 | an invalid repo (days ≤ 0, negative rate or principal ≤ 0) repays 0.0; a valid one repays at least its positive principal |
| Financing.RepoRepaymentMonotoneInDays | src/4_topic1.py:12-18 | a longer valid repo never repays less |
| Financing.RepoRepaymentExample | src/4_topic1.py:12-18 | 1,000,000 at 3.5% for 30 days repays exactly 3008750/3 |
| Financing.FinancingCost | src/4_topic1.py:25 | the financing cost is non-negative for non-negative price, rate and days |
| Financing.ForwardPrice | src/4_topic1.py:20-33 | the forward is the dirty price when days_to_forward ≤ 0; with no coupon strictly inside the window it is the dirty price plus its financing cost |
| Financing.ForwardWithCoupon | src/4_topic1.py:27-32 | a coupon strictly inside the window is deducted with the repo interest it earns until the forward date |
| Financing.ForwardIsRepoRepayment | src/4_topic1.py:20-33 | with no coupon in the window, the forward of a valid trade equals the repo repayment on the dirty price |
| Financing.ForwardNonIncreasingInCoupon | src/4_topic1.py:27-32 | with a non-negative repo rate, a larger coupon never raises the forward price |
| Financing.CarryIsFinancingCost | src/4_topic1.py:25-37 | with no coupon in the window, the carry from dirty price to forward is the financing cost dirty·r·d/360 |
| Financing.RollDownDependsOnLast | src/4_topic1.py:39-43 | two histories with the same last yield give the same roll-down |
| Financing.RollDownZeroAtCurrent | src/4_topic1.py:39-43 | a history ending at the current yield gives a roll-down of zero |
| Financing.RepoAdjustedYield | src/4_topic1.py:45-50 | the special yield comes back unchanged when pv01 ≤ 0, holding days ≤ 0, or GC equals special; otherwise the yield moves up exactly when GC is above special and down exactly when it is below |
| Financing.RepoAdjustmentProportionalToDays | src/4_topic1.py:49 | scaling the holding period by a positive factor scales the yield adjustment by the same factor |

## Left out

- `calculate_ytm` (src/2_topic1.py:22-28) is not part of this model. It wraps a Newton root finder from a numerical library whose code is not part of this model, and it turns every failure into NaN.
- `future_value_continuous` (src/1_topic1.py:16-18) is not part of this model, because the exponential function cannot be computed exactly over the reals.
- Fractional compounding exponents are left out. `TimeValue.FutureValue`, `PresentValue` and `DiscountFactor` require T·m to be a whole, non-negative number (`WholePeriods`), and `ZeroCouponBondPrice` takes a natural number of years. The source accepts any float exponent.
- Negative period counts are left out. `BondPriceSpec`, `BondPrice` and `CalculateBondPrice` require years·comp ≥ 0. In the source a negative count runs no loop iterations and raises the face discount factor to a negative power.
- The non-integer `years` that make `range()` raise TypeError are not modelled: years and frequencies are integers.
- IEEE-754 rounding and overflow are not modelled, since all arithmetic is exact.
- The extra grid point that floating-point `np.arange` may add is not modelled. Payment times are exactly (i + 1)/m, and extra times are never read.
- Date parsing with `datetime.strptime` is not modelled. Dates are integer day numbers, and `(d2 - d1).days` is their difference.
- The dashboards' layout, callbacks (except the cash-flow schedule the bond-pricing callback draws, which is `BondPricing.CashFlowSchedule`), figures, display multipliers, input defaults and colour logic are not modelled. They compute nothing the model relies on.
- RiskMeasures.Pv01Positive: stated only for at least one year and a positive growth factor. With zero years the price is the face and PV01 is 0.
- RiskMeasures.PvbpPositive: stated only for at least one year and a positive growth factor. With zero years there are no coupons and PVBP is 0.
