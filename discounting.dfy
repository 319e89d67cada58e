/** Arithmetic shared by the four dashboards: powers with whole-number
    exponents, the exceptions Python raises, coupon annuities, the level
    coupon schedule and the present value of a list of cash flows. */
module Discounting {

  /** The Python exceptions the calculations can raise. */
  datatype Fault = ZeroDivision | IndexError

  /** A calculation either yields a value or raises a fault. */
  datatype Result<T> = Ok(value: T) | Fail(fault: Fault)

  /** `x ** n` for a whole exponent `n`. */
  function Pow(x: real, n: nat): (r: real)
    ensures x > 0.0 ==> r > 0.0
    ensures x != 0.0 ==> r != 0.0
  {
    if n == 0 then 1.0 else x * Pow(x, n - 1)
  }

  lemma {:induction false} PowAtLeastOne(x: real, n: nat)
    requires x >= 1.0
    ensures Pow(x, n) >= 1.0
  {
    if n > 0 {
      PowAtLeastOne(x, n - 1);
      ProductOrder(1.0, x, 1.0, Pow(x, n - 1));
    }
  }

  /** Powers preserve the order of positive bases. */
  lemma {:induction false} PowMonotone(x: real, y: real, n: nat)
    requires 0.0 < x <= y
    ensures Pow(x, n) <= Pow(y, n)
    ensures x < y && n >= 1 ==> Pow(x, n) < Pow(y, n)
  {
    if n > 0 {
      PowMonotone(x, y, n - 1);
      ProductOrder(x, y, Pow(x, n - 1), Pow(y, n - 1));
    }
  }

  lemma {:induction false} PowMultiply(x: real, y: real, n: nat)
    ensures Pow(x * y, n) == Pow(x, n) * Pow(y, n)
  {
    if n > 0 {
      PowMultiply(x, y, n - 1);
      Rearrange(x, y, Pow(x, n - 1), Pow(y, n - 1));
    }
  }

  /** The discounted value of `n` level coupons `c`, paid at the end of
      periods 1..n with one-period growth factor `b`: the sum of c / b^t. */
  function Annuity(c: real, b: real, n: nat): real
    requires b != 0.0 || n == 0
  {
    if n == 0 then 0.0 else Annuity(c, b, n - 1) + c / Pow(b, n)
  }

  /** Price of a level-coupon bond: discounted coupons plus discounted face. */
  function PriceFormula(face: real, c: real, b: real, n: nat): real
    requires b != 0.0 || n == 0
  {
    Annuity(c, b, n) + face / Pow(b, n)
  }

  /** The annuity is linear in the coupon. */
  lemma {:induction false} AnnuityScales(c: real, b: real, n: nat)
    requires b != 0.0
    ensures Annuity(c, b, n) == c * Annuity(1.0, b, n)
  {
    if n > 0 {
      AnnuityScales(c, b, n - 1);
      ScaleSum(c, Annuity(1.0, b, n - 1), Pow(b, n));
    }
  }

  lemma {:induction false} AnnuityPositive(b: real, n: nat)
    requires b > 0.0 && n >= 1
    ensures Annuity(1.0, b, n) > 0.0
  {
    if n > 1 {
      AnnuityPositive(b, n - 1);
    }
  }

  /** A higher growth factor discounts every coupon more. */
  lemma {:induction false} AnnuityDecreasing(b1: real, b2: real, n: nat)
    requires 0.0 < b1 < b2 && n >= 1
    ensures Annuity(1.0, b1, n) > Annuity(1.0, b2, n)
  {
    PowMonotone(b1, b2, n);
    ReciprocalOrder(Pow(b1, n), Pow(b2, n));
    if n > 1 {
      AnnuityDecreasing(b1, b2, n - 1);
    }
  }

  /** Identity for the distance from par: with a coupon `c` per unit of
      face `face`, price minus face is (c - face * (b - 1)) per unit annuity. */
  lemma {:induction false} PriceMinusFace(face: real, c: real, b: real, n: nat)
    requires b != 0.0
    ensures PriceFormula(face, c, b, n) - face == (c - face * (b - 1.0)) * Annuity(1.0, b, n)
  {
    if n > 0 {
      PriceMinusFace(face, c, b, n - 1);
      var p := Pow(b, n - 1);
      assert Pow(b, n) == b * p;
      ParTerm(face, c, b, p);
      ScaleSum(c - face * (b - 1.0), Annuity(1.0, b, n - 1), b * p);
    }
  }

  /** With a positive growth factor and at least one period, the price is
      below face when the coupon is below the face's periodic yield, and
      above face when it is above. */
  lemma PriceVersusFace(face: real, c: real, b: real, n: nat)
    requires b > 0.0 && n >= 1
    ensures c - face * (b - 1.0) < 0.0 ==> PriceFormula(face, c, b, n) < face
    ensures c - face * (b - 1.0) > 0.0 ==> PriceFormula(face, c, b, n) > face
  {
    PriceMinusFace(face, c, b, n);
    AnnuityPositive(b, n);
    SignedDistance(PriceFormula(face, c, b, n), face, c - face * (b - 1.0), Annuity(1.0, b, n));
  }

  /** A distance that is a signed gap times a positive scale has the gap's
      sign. */
  lemma SignedDistance(x: real, y: real, gap: real, scale: real)
    requires scale > 0.0 && x - y == gap * scale
    ensures gap < 0.0 ==> x < y
    ensures gap > 0.0 ==> x > y
  {
    StrictSign(gap, scale);
  }

  /** One more period moves price minus face by the new coupon, the face
      discounted one period further, less the face discounted as before. */
  lemma ParTerm(face: real, c: real, b: real, p: real)
    requires b != 0.0 && p != 0.0
    ensures c / (b * p) + face / (b * p) - face / p == (c - face * (b - 1.0)) / (b * p)
  {
    var q := b * p;
    assert face / p == face * b / q;
    assert c / q + face / q - face * b / q == (c + face - face * b) / q;
  }

  lemma ProductOrder(x: real, y: real, p: real, q: real)
    requires 0.0 < x <= y && 0.0 < p <= q
    ensures x * p <= y * q
    ensures x < y ==> x * p < y * q
  {
    assert x * p <= x * q;
    assert x * q <= y * q;
    if x < y {
      assert x * q < y * q;
    }
  }

  lemma ScaleOrder(k: real, x: real, y: real)
    requires k >= 0.0 && x <= y
    ensures k * x <= k * y
  {
    assert k * y - k * x == k * (y - x);
  }

  lemma StrictSign(x: real, k: real)
    requires k > 0.0
    ensures (x * k > 0.0 <==> x > 0.0) && (x * k < 0.0 <==> x < 0.0)
  {
    if x > 0.0 {
      assert x * k > 0.0;
    } else if x < 0.0 {
      assert (-x) * k > 0.0;
    }
  }

  lemma Rearrange(x: real, y: real, p: real, q: real)
    ensures (x * y) * (p * q) == (x * p) * (y * q)
  {
  }

  lemma ScaleSum(c: real, a: real, p: real)
    requires p != 0.0
    ensures c * a + c / p == c * (a + 1.0 / p)
  {
    DivideAsScale(c, p);
  }

  lemma ReciprocalOrder(p1: real, p2: real)
    requires 0.0 < p1 < p2
    ensures 1.0 / p1 > 1.0 / p2
  {
  }

  lemma ReciprocalProduct(x: real, y: real)
    requires x > 0.0 && y > 0.0
    ensures (1.0 / x) * (1.0 / y) == 1.0 / (x * y)
  {
  }

  lemma ReciprocalAntitone(p: real, q: real)
    requires 0.0 < p <= q
    ensures 1.0 / p >= 1.0 / q
  {
  }

  lemma DivideAsScale(c: real, x: real)
    requires x != 0.0
    ensures c / x == c * (1.0 / x)
  {
  }

  lemma MultiplyNonNegative(x: real, y: real)
    requires x >= 0.0 && y >= 0.0
    ensures x * y >= 0.0
  {
  }

  lemma SquareGap(u: real, v: real)
    ensures (u + v) * (u + v) >= 4.0 * (u * v)
  {
    assert (u + v) * (u + v) - 4.0 * (u * v) == (u - v) * (u - v);
  }

  lemma SquareStrictlyBelow(s: real, t: real)
    requires 0.0 < s < t
    ensures s * s < t * t
  {
    assert s * s < s * t;
    assert s * t < t * t;
  }

  /** Of two positive numbers, the one with the larger square is larger. */
  lemma SquareOrder(s: real, t: real)
    requires s > 0.0 && t > 0.0 && s * s >= t * t
    ensures s >= t
  {
    if s < t {
      SquareStrictlyBelow(s, t);
      assert false;
    }
  }

  /** Two positive numbers whose product is at least w * w sum to at
      least 2 * w. */
  lemma MeanAboveRoot(u: real, v: real, w: real)
    requires u > 0.0 && v > 0.0 && w > 0.0 && u * v >= w * w
    ensures u + v >= 2.0 * w
  {
    SquareGap(u, v);
    var s, t := u + v, 2.0 * w;
    assert t * t == 4.0 * (w * w);
    SquareOrder(s, t);
  }

  /** For positive x, y, z with x * y <= z * z: 1/x + 1/y >= 2/z (the
      arithmetic-geometric mean inequality, written without square roots). */
  lemma ReciprocalMean(x: real, y: real, z: real)
    requires x > 0.0 && y > 0.0 && z > 0.0 && x * y <= z * z
    ensures 1.0 / x + 1.0 / y >= 2.0 / z
  {
    var u, v, w := 1.0 / x, 1.0 / y, 1.0 / z;
    ReciprocalProduct(x, y);
    ReciprocalProduct(z, z);
    ReciprocalAntitone(x * y, z * z);
    MeanAboveRoot(u, v, w);
  }

  /** One discounted term is convex in the growth factor: the mean of the
      values at b - d and b + d is at least the value at b. */
  lemma TermConvex(b: real, d: real, t: nat)
    requires 0.0 <= d < b
    ensures 1.0 / Pow(b + d, t) + 1.0 / Pow(b - d, t) >= 2.0 / Pow(b, t)
  {
    var plus, minus := b + d, b - d;
    var hi, lo, mid := Pow(plus, t), Pow(minus, t), Pow(b, t);
    var spread, square := plus * minus, b * b;
    PowMultiply(plus, minus, t);
    PowMultiply(b, b, t);
    assert 0.0 < spread <= square by {
      assert spread == square - d * d;
      assert (b + d) * (b - d) > 0.0;
    }
    PowMonotone(spread, square, t);
    assert hi * lo == Pow(spread, t);
    assert mid * mid == Pow(square, t);
    ReciprocalMean(hi, lo, mid);
  }

  lemma ScaledTermConvex(c: real, b: real, d: real, t: nat)
    requires c >= 0.0 && 0.0 <= d < b
    ensures c / Pow(b + d, t) + c / Pow(b - d, t) >= 2.0 * (c / Pow(b, t))
  {
    TermConvex(b, d, t);
    ScaleMean(c, Pow(b + d, t), Pow(b - d, t), Pow(b, t));
  }

  lemma ScaleMean(c: real, x: real, y: real, z: real)
    requires c >= 0.0 && x > 0.0 && y > 0.0 && z > 0.0
    requires 1.0 / x + 1.0 / y >= 2.0 / z
    ensures c / x + c / y >= 2.0 * (c / z)
  {
    var u, v, w := 1.0 / x, 1.0 / y, 1.0 / z;
    DivideAsScale(c, x);
    DivideAsScale(c, y);
    DivideAsScale(c, z);
    assert 2.0 / z == 2.0 * w;
    MultiplyNonNegative(c, u + v - 2.0 * w);
    assert c * u + c * v - 2.0 * (c * w) == c * (u + v - 2.0 * w);
  }

  lemma {:induction false} AnnuityConvex(c: real, b: real, d: real, n: nat)
    requires c >= 0.0 && 0.0 <= d < b
    ensures Annuity(c, b + d, n) + Annuity(c, b - d, n) >= 2.0 * Annuity(c, b, n)
  {
    if n > 0 {
      AnnuityConvex(c, b, d, n - 1);
      ScaledTermConvex(c, b, d, n);
    }
  }

  /** The second difference of the bond price in the growth factor is never
      negative for non-negative coupon and face. */
  lemma PriceConvex(face: real, c: real, b: real, d: real, n: nat)
    requires face >= 0.0 && c >= 0.0 && 0.0 <= d < b
    ensures PriceFormula(face, c, b + d, n) + PriceFormula(face, c, b - d, n)
            - 2.0 * PriceFormula(face, c, b, n) >= 0.0
  {
    AnnuityConvex(c, b, d, n);
    TermConvex(b, d, n);
    ScaledTermConvex(face, b, d, n);
  }

  /** The list `[c] * n` with `face` added to its last entry. */
  function Schedule(c: real, face: real, n: nat): seq<real>
    requires n >= 1
  {
    seq(n - 1, _ => c) + [c + face]
  }

  /** Sum of a list of amounts. */
  function Sum(s: seq<real>): real
  {
    if s == [] then 0.0 else Sum(s[..|s| - 1]) + s[|s| - 1]
  }

  /** Present value of `flows[i]` paid at the end of period i + 1. */
  function PvOf(flows: seq<real>, b: real): real
    requires b != 0.0
  {
    if flows == [] then 0.0 else PvOf(flows[..|flows| - 1], b) + flows[|flows| - 1] / Pow(b, |flows|)
  }

  lemma ScheduleShape(c: real, face: real, n: nat)
    requires n >= 1
    ensures |Schedule(c, face, n)| == n
    ensures forall i :: 0 <= i < n - 1 ==> Schedule(c, face, n)[i] == c
    ensures Schedule(c, face, n)[n - 1] == c + face
  {
  }

  lemma {:induction false} SumLevel(c: real, k: nat)
    ensures Sum(seq(k, _ => c)) == k as real * c
  {
    if k > 0 {
      assert seq(k, _ => c)[..k - 1] == seq(k - 1, _ => c);
      SumLevel(c, k - 1);
    }
  }

  /** The undiscounted total of the schedule: n coupons plus the face. */
  lemma ScheduleTotal(c: real, face: real, n: nat)
    requires n >= 1
    ensures Sum(Schedule(c, face, n)) == n as real * c + face
  {
    var s := Schedule(c, face, n);
    assert s[..n - 1] == seq(n - 1, _ => c);
    SumLevel(c, n - 1);
  }

  lemma {:induction false} PvOfLevel(c: real, b: real, k: nat)
    requires b != 0.0
    ensures PvOf(seq(k, _ => c), b) == Annuity(c, b, k)
  {
    if k > 0 {
      assert seq(k, _ => c)[..k - 1] == seq(k - 1, _ => c);
      PvOfLevel(c, b, k - 1);
    }
  }

  /** Discounting the schedule entry by entry gives the bond price formula. */
  lemma PvOfSchedule(c: real, face: real, b: real, n: nat)
    requires n >= 1 && b != 0.0
    ensures PvOf(Schedule(c, face, n), b) == PriceFormula(face, c, b, n)
  {
    var s := Schedule(c, face, n);
    assert s[..n - 1] == seq(n - 1, _ => c);
    PvOfLevel(c, b, n - 1);
    var p := Pow(b, n);
    assert (c + face) / p == c / p + face / p;
  }
}
