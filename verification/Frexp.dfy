/** `frexp` of include/maths.h:467-502. */
module Frexp {
  import opened Powers
  import opened Binary64
  import opened Rounding
  import opened Scalbn
  import opened ScaleBLaws

  /** `__builtin_clzll` on a nonzero 64-bit value. */
  function CountLeadingZeros(m: nat): (z: int)
    requires 0 < m < 2 * TWO63
  {
    63 - Log2(m)
  }

  /** The pair that frexp is meant to return for a finite nonzero double. */
  function Decomposition(x: Double): (p: (Double, int))
    requires IsFinite(x) && !IsZero(x)
  {
    ScaleBNormalised(x, 0);
    (Fields(x.neg, 1022, Significand(x) - TWO52), ExponentBase(x) - 1022)
  }

  /** The pair for every input: zeros give +0, NaN and infinity pass through. */
  function FrexpPair(x: Double): (Double, int)
  {
    if IsZero(x) then (Zero(false), 0) else if IsFinite(x) then Decomposition(x) else (x, 0)
  }

  /** Zeros give +0 and NaN and infinity pass, all with exponent 0; any other double is split into a
      mantissa in [1/2, 1) and an exponent, exactly. */
  method Frexp(x: Double) returns (m: Double, exp: int)
    ensures IsZero(x) ==> m == Zero(false) && exp == 0
    ensures !IsFinite(x) ==> m == x && exp == 0
    ensures IsFinite(x) && !IsZero(x) ==> InHalfOpenUnit(m) && IsProduct(m, exp, x)
    ensures (m, exp) == FrexpPair(x)
  {
    if IsFinite(x) && !IsZero(x) {
      DecompositionIsProduct(x);
    }
    var sign, mant, iexp := x.neg, x.frac, x.exp;

    if iexp == 0 {
      if mant == 0 {
        return Zero(false), 0;
      }
      var shift := CountLeadingZeros(mant) - (64 - 53);
      assert shift == Shift(mant);
      Normalise(mant);
      mant := mant * Pow2(shift);
      DivModUnique(mant, TWO52, 1, mant - TWO52);
      iexp := 1 - shift;
      return Fields(sign, 1022, mant % TWO52), iexp - 1022;
    }

    if iexp == 0x7ff {
      return x, 0;
    }

    return Fields(sign, 0x3fe, mant), iexp - 1022;
  }

  // ---- What the pair means ----

  /** x == m * 2^e, as an exact equation between integers of units. */
  predicate IsProduct(m: Double, e: int, x: Double)
  {
    && m.neg == x.neg
    && if e >= 0 then Units(m) * Pow2(e) == Units(x) else Units(m) == Units(x) * Pow2(-e)
  }

  /** 1/2 <= |m| < 1 */
  predicate InHalfOpenUnit(m: Double)
  {
    Mag(TwoPow(-1)) <= Mag(m) < Mag(TwoPow(0))
  }

  lemma HalfOpenUnitExponent(m: Double)
    ensures InHalfOpenUnit(m) <==> m.exp == 1022
  {
  }

  /** frexp splits every finite nonzero double, subnormals included, exactly; and no other pair
      with a mantissa in [1/2, 1) does. */
  lemma DecompositionIsTheOnlyOne(x: Double, m: Double, e: int)
    requires IsFinite(x) && !IsZero(x)
    ensures InHalfOpenUnit(m) && IsProduct(m, e, x) <==> (m, e) == Decomposition(x)
  {
    var (m0, e0) := Decomposition(x);
    DecompositionIsProduct(x);
    if InHalfOpenUnit(m) && IsProduct(m, e, x) {
      HalfOpenUnitExponent(m);
      var t := Abs(e) + Abs(e0);
      ProductAt(m, e, x, t, 1021);
      ProductAt(m0, e0, x, t, 1021);
      SameProduct(TWO52 + m.frac, 1021 + e + t, TWO52 + m0.frac, 1021 + e0 + t);
    }
  }

  lemma DecompositionIsProduct(x: Double)
    requires IsFinite(x) && !IsZero(x)
    ensures InHalfOpenUnit(Decomposition(x).0)
    ensures IsProduct(Decomposition(x).0, Decomposition(x).1, x)
  {
    HalfOpenUnitExponent(Decomposition(x).0);
    ProductOfParts(x, Decomposition(x).0, 1021);
  }

  /** The exponent arithmetic behind `DecompositionIsProduct`, for any bias. */
  lemma ProductOfParts(x: Double, m: Double, bias: nat)
    requires IsFinite(x) && !IsZero(x)
    requires m.neg == x.neg && m.exp == bias + 1 && TWO52 + m.frac == Significand(x)
    ensures IsProduct(m, ExponentBase(x) - bias - 1, x)
  {
    var s, e := Significand(x), ExponentBase(x) - bias - 1;
    if e >= 0 {
      SplitPower(s, bias, e);
    } else if x.exp == 0 {
      SplitPower(x.frac, Shift(x.frac), bias);
    } else {
      SplitPower(s, x.exp - 1, -e);
    }
  }

  /** Clearing the denominator of the exact equation. */
  lemma ProductAt(m: Double, e: int, x: Double, t: nat, bias: nat)
    requires IsProduct(m, e, x) && e + t >= 0 && m.exp == bias + 1
    ensures (TWO52 + m.frac) * Pow2(bias + e + t) == Units(x) * Pow2(t)
  {
    SplitPower(TWO52 + m.frac, bias, e + t);
    if e >= 0 {
      SplitPower(Units(m), e, t);
    } else {
      SplitPower(Units(x), -e, e + t);
    }
  }

  /** Full significands with equal products are the same significand at the same exponent. */
  lemma SameProduct(s: nat, a: nat, r: nat, b: nat)
    requires TWO52 <= s < TWO53 && TWO52 <= r < TWO53
    requires s * Pow2(a) == r * Pow2(b)
    ensures s == r && a == b
  {
    if a < b {
      SignificandGap(s, a, r, b);
    } else if b < a {
      SignificandGap(r, b, s, a);
    } else {
      MulCancel(s, r, Pow2(a));
    }
  }

  lemma SignificandGap(s: nat, a: nat, r: nat, b: nat)
    requires s < TWO53 && TWO52 <= r && a < b
    ensures s * Pow2(a) < r * Pow2(b)
  {
    Pow2Mono(a, b - 1);
    MulLt(s, 2 * r, Pow2(a));
    MulLe(Pow2(a), Pow2(b - 1), 2 * r);
    MulAssoc(r, 2, Pow2(b - 1));
  }

  // ---- Round trip through scalbn ----

  /** scalbn puts together what frexp took apart, bit for bit, except that frexp drops the sign
      of a negative zero. */
  lemma RoundTripIffNotNegativeZero(x: Double)
    ensures ScaleB(FrexpPair(x).0, FrexpPair(x).1) == x <==> x != Zero(true)
  {
    if IsZero(x) {
      ScaleBOfZero(Zero(false), 0);
    } else if IsFinite(x) {
      ScaleBNormalised(x, 0);
      PartsScaleBack(x, Decomposition(x).0, 1021);
    }
  }

  /** Scaling the mantissa by the exponent packs the significand where it was. */
  lemma PartsScaleBack(x: Double, m: Double, bias: nat)
    requires IsFinite(x) && !IsZero(x) && bias + 1 < 0x7ff
    requires m.neg == x.neg && m.exp == bias + 1 && TWO52 + m.frac == Significand(x)
    ensures ScaleB(m, ExponentBase(x) - bias - 1) == x
  {
    ScaleBNormalised(x, 0);
    ScaleBByZero(x);
    ScaledMagShift(Significand(x), bias, ExponentBase(x) - bias - 1);
  }
}
