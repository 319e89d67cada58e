/** Interest-rate risk of a coupon bond (src/3_topic1.py): PV01, PVBP and
    convexity, each a one-basis-point finite difference of the same pricer
    called with its default of two periods a year. */
module RiskMeasures {
  import opened Discounting
  import opened BondPricing

  /** The default of `periods_per_year` in calculate_bond_price. */
  const DefaultPeriodsPerYear: int := 2

  /** The bump every measure applies: one basis point. */
  const BasisPoint: real := 0.0001

  /** calculate_bond_price: the same discounting loop as bond_price, with
      the periodic rate computed first. */
  method CalculateBondPrice(face: real, couponRate: real, ytm: real, years: int, periodsPerYear: int)
    returns (res: Result<real>)
    requires years * periodsPerYear >= 0
    ensures res == BondPriceSpec(face, couponRate, ytm, years, periodsPerYear)
  {
    if periodsPerYear == 0 {
      return Fail(ZeroDivision);
    }
    var periodRate := ytm / (periodsPerYear as real);
    var nPeriods := years * periodsPerYear;
    var coupon := face * couponRate / (periodsPerYear as real);
    var price := 0.0;
    var t := 1;
    while t <= nPeriods
      invariant 1 <= t <= nPeriods + 1
      invariant 1.0 + periodRate != 0.0 || t == 1
      invariant price == Annuity(coupon, 1.0 + periodRate, t - 1)
    {
      var growth := Pow(1.0 + periodRate, t);
      if growth == 0.0 {
        return Fail(ZeroDivision);
      }
      price := price + coupon / growth;
      t := t + 1;
    }
    assert (t == nPeriods + 1 && 1.0 + periodRate != 0.0) || nPeriods == 0;
    price := price + face / Pow(1.0 + periodRate, nPeriods);
    assert coupon == CouponPayment(face, couponRate, periodsPerYear);
    assert 1.0 + periodRate == PeriodGrowth(ytm, periodsPerYear);
    return Ok(price);
  }

  /** calculate_bond_price with its default frequency. */
  function Price(face: real, couponRate: real, ytm: real, years: int): Result<real>
    requires years >= 0
  {
    BondPriceSpec(face, couponRate, ytm, years, DefaultPeriodsPerYear)
  }

  /** pv01: the price fall, in cents, when the yield rises one basis point. */
  function Pv01(face: real, couponRate: real, ytm: real, years: int): Result<real>
    requires years >= 0
  {
    match Price(face, couponRate, ytm, years)
    case Fail(f) => Fail(f)
    case Ok(base) =>
      match Price(face, couponRate, ytm + BasisPoint, years)
      case Fail(f) => Fail(f)
      case Ok(shifted) => Ok((base - shifted) * 100.0)
  }

  /** pvbp: the price rise, in cents, when the coupon rate rises one basis
      point. */
  function Pvbp(face: real, couponRate: real, ytm: real, years: int): Result<real>
    requires years >= 0
  {
    match Price(face, couponRate, ytm, years)
    case Fail(f) => Fail(f)
    case Ok(base) =>
      match Price(face, couponRate + BasisPoint, ytm, years)
      case Fail(f) => Fail(f)
      case Ok(shifted) => Ok((shifted - base) * 100.0)
  }

  /** convexity: the second difference of price over a one-basis-point
      bump each way, scaled by 100 / (price * bp^2); a zero base price
      divides by zero. */
  function Convexity(face: real, couponRate: real, ytm: real, years: int): Result<real>
    requires years >= 0
  {
    match Price(face, couponRate, ytm + BasisPoint, years)
    case Fail(f) => Fail(f)
    case Ok(up) =>
      match Price(face, couponRate, ytm, years)
      case Fail(f) => Fail(f)
      case Ok(base) =>
        match Price(face, couponRate, ytm - BasisPoint, years)
        case Fail(f) => Fail(f)
        case Ok(down) =>
          if base * Pow(BasisPoint, 2) == 0.0 then Fail(ZeroDivision)
          else Ok((up + down - 2.0 * base) * 100.0 / (base * Pow(BasisPoint, 2)))
  }

  /** PV01 is positive: the price-yield curve slopes downward for a bond
      with positive face, non-negative coupon and at least one year. */
  lemma Pv01Positive(face: real, couponRate: real, ytm: real, years: int)
    requires face > 0.0 && couponRate >= 0.0 && years >= 1 && 1.0 + ytm / 2.0 > 0.0
    ensures Pv01(face, couponRate, ytm, years).Ok?
    ensures Pv01(face, couponRate, ytm, years).value > 0.0
  {
    BondPriceDecreasingInYield(face, couponRate, ytm, ytm + BasisPoint, years, DefaultPeriodsPerYear);
  }

  /** The price at a coupon rate is the price at coupon rate zero plus the
      coupon times the unit annuity: price is affine in the coupon rate. */
  lemma PriceAffineInCoupon(face: real, couponRate: real, ytm: real, years: int)
    requires years >= 0
    ensures Price(face, couponRate, ytm, years).Ok? == Price(face, 0.0, ytm, years).Ok?
    ensures Price(face, couponRate, ytm, years).Ok? ==>
              var b := PeriodGrowth(ytm, DefaultPeriodsPerYear);
              Price(face, couponRate, ytm, years).value
              == Price(face, 0.0, ytm, years).value
                 + CouponPayment(face, couponRate, DefaultPeriodsPerYear) * Annuity(1.0, b, 2 * years)
  {
    var b, n := PeriodGrowth(ytm, DefaultPeriodsPerYear), 2 * years;
    if b != 0.0 {
      AnnuityScales(CouponPayment(face, couponRate, 2), b, n);
      AnnuityScales(0.0, b, n);
    }
  }

  /** PVBP as an annuity: 100 times the bump's extra coupon, discounted as
      a unit annuity; the coupon rate itself does not appear. */
  function CouponBumpValue(face: real, ytm: real, years: int): Result<real>
    requires years >= 0
  {
    var b := PeriodGrowth(ytm, DefaultPeriodsPerYear);
    if b == 0.0 && years > 0 then Fail(ZeroDivision)
    else Ok(face * BasisPoint / 2.0 * Annuity(1.0, b, 2 * years) * 100.0)
  }

  lemma PvbpAsAnnuity(face: real, couponRate: real, ytm: real, years: int)
    requires years >= 0
    ensures Pvbp(face, couponRate, ytm, years) == CouponBumpValue(face, ytm, years)
  {
    var b := PeriodGrowth(ytm, DefaultPeriodsPerYear);
    PriceAffineInCoupon(face, couponRate, ytm, years);
    PriceAffineInCoupon(face, couponRate + BasisPoint, ytm, years);
    if !(b == 0.0 && years > 0) {
      var a := Annuity(1.0, b, 2 * years);
      var z := Price(face, 0.0, ytm, years).value;
      var c0 := CouponPayment(face, couponRate, DefaultPeriodsPerYear);
      var c1 := CouponPayment(face, couponRate + BasisPoint, DefaultPeriodsPerYear);
      CouponBump(face, couponRate);
      var p0, p1 := Price(face, couponRate, ytm, years).value, Price(face, couponRate + BasisPoint, ytm, years).value;
      assert p0 == z + c0 * a && p1 == z + c1 * a;
      AffineDifference(z, c0, c1, a);
      var k := face * BasisPoint / 2.0;
      assert (c1 - c0) * a == k * a;
      assert Pvbp(face, couponRate, ytm, years) == Ok((p1 - p0) * 100.0);
      assert CouponBumpValue(face, ytm, years).Ok?;
      assert CouponBumpValue(face, ytm, years).value == k * a * 100.0;
      assert (p1 - p0) * 100.0 == k * a * 100.0;
    }
  }

  lemma CouponBump(face: real, couponRate: real)
    ensures CouponPayment(face, couponRate + BasisPoint, DefaultPeriodsPerYear)
            - CouponPayment(face, couponRate, DefaultPeriodsPerYear) == face * BasisPoint / 2.0
  {
  }

  lemma AffineDifference(z: real, c0: real, c1: real, a: real)
    ensures (z + c1 * a) - (z + c0 * a) == (c1 - c0) * a
  {
  }

  /** PVBP does not depend on the coupon rate. */
  lemma PvbpIndependentOfCoupon(face: real, rate1: real, rate2: real, ytm: real, years: int)
    requires years >= 0
    ensures Pvbp(face, rate1, ytm, years) == Pvbp(face, rate2, ytm, years)
  {
    PvbpAsAnnuity(face, rate1, ytm, years);
    PvbpAsAnnuity(face, rate2, ytm, years);
  }

  /** PVBP is positive for positive face, at least one year and a
      positive period growth factor. */
  lemma PvbpPositive(face: real, couponRate: real, ytm: real, years: int)
    requires face > 0.0 && years >= 1 && 1.0 + ytm / 2.0 > 0.0
    ensures Pvbp(face, couponRate, ytm, years).Ok?
    ensures Pvbp(face, couponRate, ytm, years).value > 0.0
  {
    var b := PeriodGrowth(ytm, DefaultPeriodsPerYear);
    PvbpAsAnnuity(face, couponRate, ytm, years);
    AnnuityPositive(b, 2 * years);
    var a := Annuity(1.0, b, 2 * years);
    var k := face * BasisPoint / 2.0;
    assert k > 0.0;
    assert k * a > 0.0;
  }

  /** For non-negative face and coupon, the price is never negative. */
  lemma PriceNonNegative(face: real, couponRate: real, ytm: real, years: int)
    requires face >= 0.0 && couponRate >= 0.0 && years >= 0 && PeriodGrowth(ytm, DefaultPeriodsPerYear) > 0.0
    ensures Price(face, couponRate, ytm, years).Ok?
    ensures Price(face, couponRate, ytm, years).value >= 0.0
  {
    var b, n := PeriodGrowth(ytm, DefaultPeriodsPerYear), 2 * years;
    var c := CouponPayment(face, couponRate, 2);
    assert c >= 0.0 by { MultiplyNonNegative(face, couponRate); }
    AnnuityScales(c, b, n);
    if n >= 1 {
      AnnuityPositive(b, n);
    }
    MultiplyNonNegative(c, Annuity(1.0, b, n));
    assert face / Pow(b, n) >= 0.0;
  }

  /** Convexity is non-negative for non-negative cash flows whose yield
      stays above -2 after the downward bump; it is defined exactly when
      the base price is not zero. */
  lemma ConvexityNonNegative(face: real, couponRate: real, ytm: real, years: int)
    requires face >= 0.0 && couponRate >= 0.0 && years >= 0
    requires 1.0 + (ytm - BasisPoint) / 2.0 > 0.0
    ensures Price(face, couponRate, ytm, years).Ok?
    ensures Convexity(face, couponRate, ytm, years).Ok? <==> Price(face, couponRate, ytm, years).value != 0.0
    ensures Convexity(face, couponRate, ytm, years).Ok? ==> Convexity(face, couponRate, ytm, years).value >= 0.0
  {
    var b, d, n := PeriodGrowth(ytm, DefaultPeriodsPerYear), BasisPoint / 2.0, 2 * years;
    assert PeriodGrowth(ytm + BasisPoint, DefaultPeriodsPerYear) == b + d;
    assert PeriodGrowth(ytm - BasisPoint, DefaultPeriodsPerYear) == b - d;
    var c := CouponPayment(face, couponRate, 2);
    assert c >= 0.0 by { MultiplyNonNegative(face, couponRate); }
    PriceConvex(face, c, b, d, n);
    PriceNonNegative(face, couponRate, ytm, years);
    var up, base, down := PriceFormula(face, c, b + d, n), PriceFormula(face, c, b, n), PriceFormula(face, c, b - d, n);
    assert Price(face, couponRate, ytm + BasisPoint, years) == Ok(up);
    assert Price(face, couponRate, ytm, years) == Ok(base);
    assert Price(face, couponRate, ytm - BasisPoint, years) == Ok(down);
    var scale := base * Pow(BasisPoint, 2);
    if base != 0.0 {
      assert scale > 0.0;
      MultiplyNonNegative(up + down - 2.0 * base, 100.0);
      assert (up + down - 2.0 * base) * 100.0 / scale >= 0.0;
    }
  }

  /** A zero base price makes convexity divide by zero. */
  lemma ConvexityUndefinedAtZeroPrice(face: real, couponRate: real, ytm: real, years: int)
    requires years >= 0 && Price(face, couponRate, ytm, years) == Ok(0.0)
    ensures Convexity(face, couponRate, ytm, years) == Fail(ZeroDivision)
  {
  }
}
