/** `scalbn` of include/maths.h:374-443 against the scaleB operation of IEEE 754-2019,
    section 5.3.3, under round-to-nearest, ties-to-even. */
module Scalbn {
  import opened Int32
  import opened Powers
  import opened Binary64
  import opened Rounding

  /** The magnitude of u * 2^n units, rounded once. */
  function ScaledMag(u: nat, n: int): (i: nat)
    ensures i <= INF
  {
    if n >= 0 then RoundUnits(u * Pow2(n), 0) else RoundUnits(u, -n)
  }

  function ScaleB(x: Double, n: int): (r: Double)
  {
    if IsFinite(x) then FromMag(x.neg, ScaledMag(Units(x), n)) else x
  }

  /** The declarative reading: NaN and infinity pass through; otherwise the sign is kept and the
      magnitude is the grid point nearest to the exact x * 2^n, ties to even. */
  ghost predicate IsScaleB(r: Double, x: Double, n: int)
  {
    if !IsFinite(x) then r == x
    else
      && r.neg == x.neg
      && (if n >= 0 then IsNearestEven(Mag(r), Units(x) * Pow2(n), 0) else IsNearestEven(Mag(r), Units(x), -n))
  }

  lemma ScaleBIsCorrectlyRounded(x: Double, n: int)
    ensures IsScaleB(ScaleB(x, n), x, n)
    ensures forall r: Double :: IsScaleB(r, x, n) ==> r == ScaleB(x, n)
  {
    if IsFinite(x) {
      var a, k := if n >= 0 then Units(x) * Pow2(n) else Units(x), if n >= 0 then 0 else -n;
      RoundUnitsNearest(a, k);
      forall r: Double | IsScaleB(r, x, n) ensures r == ScaleB(x, n) {
        NearestEvenUnique(Mag(r), RoundUnits(a, k), a, k);
        SameMag(r, ScaleB(x, n));
      }
    }
  }

  lemma SameMag(x: Double, y: Double)
    requires Mag(x) == Mag(y) && x.neg == y.neg
    ensures x == y
  {
    DivModUnique(Mag(x), TWO52, x.exp, x.frac);
    DivModUnique(Mag(y), TWO52, y.exp, y.frac);
  }

  // ---- The arithmetic shared by the paths of scalbn ----

  /** Powers of two may move between the significand and the scale. */
  lemma ScaledMagShift(u: nat, c: nat, n: int)
    ensures ScaledMag(u * Pow2(c), n) == ScaledMag(u, n + c)
  {
    if n >= 0 {
      ShiftWhole(u, c, n);
    } else if n + c >= 0 {
      ShiftAcross(u, c, -n);
    } else {
      RoundUnitsScale(u, -n - c, c);
    }
  }

  lemma ShiftWhole(u: nat, c: nat, n: nat)
    ensures RoundUnits(u * Pow2(c) * Pow2(n), 0) == RoundUnits(u * Pow2(n + c), 0)
  {
    SplitPower(u, c, n);
    assert c + n == n + c;
  }

  lemma ShiftAcross(u: nat, c: nat, k: nat)
    requires k <= c
    ensures RoundUnits(u * Pow2(c), k) == RoundUnits(u * Pow2(c - k), 0)
  {
    SplitPower(u, c - k, k);
    RoundUnitsScale(u * Pow2(c - k), 0, k);
  }

  lemma SplitPower(u: nat, a: nat, b: nat)
    ensures u * Pow2(a) * Pow2(b) == u * Pow2(a + b)
  {
    Pow2Add(a, b);
    MulAssoc(u, Pow2(a), Pow2(b));
  }

  lemma RoundUnitsScale(a: nat, k: nat, c: nat)
    ensures RoundUnits(a * Pow2(c), k + c) == RoundUnits(a, k)
  {
    RoundMagScale(a, k, c);
  }

  /** A full significand with a positive exponent field is exact until it overflows. */
  lemma NormalOutcome(s: nat, e: nat)
    requires TWO52 <= s < TWO53 && e >= 1
    ensures ScaledMag(s, e - 1) == Min(e * TWO52 + (s - TWO52), INF)
  {
    ValueOfFields(e, s - TWO52);
    RoundMagExact(e * TWO52 + (s - TWO52), 0);
  }

  /** From exponent field -54 downward everything rounds to zero. */
  lemma UnderflowOutcome(s: nat, e: int)
    requires s < TWO53 && e <= -54
    ensures ScaledMag(s, e - 1) == 0
  {
    Pow2Literals();
    Pow2Mono(54, -e);
    assert Pow2(1 - e) == 2 * Pow2(-e);
    DivModUnique(s, Pow2(1 - e), 0, s);
  }

  /** The double 2^j. */
  function TwoPow(j: int): (t: Double)
    requires -1022 <= j <= 1023
  {
    Fields(false, 1023 + j, 0)
  }

  /** Multiplying by 2^j in hardware is a scaling with one rounding. */
  lemma MulByTwoPow(x: Double, j: int)
    requires IsFinite(x) && -1022 <= j <= 1023
    ensures Mul(x, TwoPow(j)) == ScaleB(x, j)
  {
    TwoPowUnits(j, 1022);
    MulByPower(x, TwoPow(j), j, 1074);
  }

  lemma TwoPowUnits(j: int, bias: nat)
    requires 0 <= bias + j && j <= bias + 1 && bias <= 1022
    ensures Units(Fields(false, bias + 1 + j, 0)) == Pow2(bias + 52 + j)
  {
    Pow2Literals();
    Pow2Add(52, bias + j);
  }

  lemma MulByPower(x: Double, t: Double, j: int, c: nat)
    requires IsFinite(x) && IsFinite(t) && !t.neg && c == 1074 && c + j >= 0 && Units(t) == Pow2(c + j) && !IsZero(t)
    ensures Mul(x, t) == ScaleB(x, j)
  {
    ProductOutcome(Units(x), j, c);
  }

  lemma ProductOutcome(u: nat, j: int, c: nat)
    requires c + j >= 0
    ensures RoundUnits(u * Pow2(c + j), c) == ScaledMag(u, j)
  {
    if c > 0 {
      ScaledMagShift(u, c + j, 0 - c);
    }
  }

  /** The significand of a subnormal, shifted until its leading one is bit 52. */
  function Shift(m: nat): (s: nat)
    requires 0 < m < TWO52
    ensures s >= 1 && s == 52 - Log2(m)
  {
    Pow2Literals();
    Log2Below(m, 52);
    52 - Log2(m)
  }

  lemma Normalise(m: nat)
    requires 0 < m < TWO52
    ensures TWO52 <= m * Pow2(Shift(m)) < TWO53
  {
    Pow2Literals();
    Pow2Add(Log2(m), Shift(m));
    MulLe(Pow2(Log2(m)), m, Pow2(Shift(m)));
    MulLt(m, 2 * Pow2(Log2(m)), Pow2(Shift(m)));
    MulAssoc(2, Pow2(Log2(m)), Pow2(Shift(m)));
  }

  /** The exponent field to which scalbn adds n: for a subnormal, that of x * 2^54 less 54. */
  function ExponentBase(x: Double): (b: int)
    requires IsFinite(x) && !IsZero(x)
  {
    if x.exp == 0 then 1 - Shift(x.frac) else x.exp
  }

  /** The significand that goes with `ExponentBase`. */
  function Significand(x: Double): (s: nat)
    requires IsFinite(x) && !IsZero(x)
  {
    if x.exp == 0 then x.frac * Pow2(Shift(x.frac)) else TWO52 + x.frac
  }

  /** Every finite nonzero double is a full significand at its exponent base. */
  lemma ScaleBNormalised(x: Double, n: int)
    requires IsFinite(x) && !IsZero(x)
    ensures TWO52 <= Significand(x) < TWO53
    ensures ScaleB(x, n) == FromMag(x.neg, ScaledMag(Significand(x), ExponentBase(x) + n - 1))
  {
    if x.exp == 0 {
      Normalise(x.frac);
      ScaledMagShift(x.frac, Shift(x.frac), n - Shift(x.frac));
    } else {
      ScaledMagShift(TWO52 + x.frac, x.exp - 1, n);
    }
  }

  /** The scaled exponent field, and the outcomes it selects. */
  lemma UnderflowPath(x: Double, n: int, e: int)
    requires IsFinite(x) && !IsZero(x) && e == ExponentBase(x) + n && e <= -54
    ensures ScaleB(x, n) == Zero(x.neg)
  {
    ScaleBNormalised(x, n);
    UnderflowOutcome(Significand(x), e);
  }

  lemma OverflowPath(x: Double, n: int, e: int)
    requires IsFinite(x) && !IsZero(x) && e == ExponentBase(x) + n && e >= 0x7ff
    ensures ScaleB(x, n) == Infinity(x.neg)
  {
    ScaleBNormalised(x, n);
    NormalOutcome(Significand(x), e);
  }

  lemma PackPath(x: Double, n: int, e: int, frac: nat)
    requires IsFinite(x) && !IsZero(x) && e == ExponentBase(x) + n && 1 <= e < 0x7ff
    requires TWO52 + frac == Significand(x)
    ensures frac < TWO52 && ScaleB(x, n) == Fields(x.neg, e, frac)
  {
    ScaleBNormalised(x, n);
    NormalOutcome(Significand(x), e);
    DivModUnique(e * TWO52 + frac, TWO52, e, frac);
  }

  /** Packing the significand at exponent field p >= 1 and multiplying by 2^j rounds just once. */
  lemma RescalePath(x: Double, n: int, p: nat, j: int, frac: nat)
    requires IsFinite(x) && !IsZero(x) && 1 <= p < 0x7ff && -1022 <= j <= 1023
    requires p + j == ExponentBase(x) + n && TWO52 + frac == Significand(x)
    ensures frac < TWO52 && Mul(Fields(x.neg, p, frac), TwoPow(j)) == ScaleB(x, n)
  {
    ScaleBNormalised(x, n);
    var y: Double := Fields(x.neg, p, frac);
    MulByTwoPow(y, j);
    PackedScale(y, Significand(x), j);
  }

  /** Scaling a packed significand. */
  lemma PackedScale(y: Double, s: nat, j: int)
    requires 1 <= y.exp < 0x7ff && s == TWO52 + y.frac
    ensures ScaleB(y, j) == FromMag(y.neg, ScaledMag(s, y.exp - 1 + j))
  {
    ScaledMagShift(s, y.exp - 1, j);
  }

  // ---- The function ----

  /** The subnormal branch, include/maths.h:396-419. */
  method ScaleSubnormal(x: Double, n: int) returns (r: Double)
    requires x.exp == 0 && x.frac != 0
    requires INT_MIN <= ExponentBase(x) + n <= INT_MAX
    ensures r == ScaleB(x, n)
  {
    var sign := x.neg;
    var v := Mul(x, TwoPow(54));
    assert TWO52 + v.frac == Significand(x) && v.exp == ExponentBase(x) + 54 by {
      PrescaleOutcome(x);
    }
    assert ExponentBase(x) <= 0;
    var exp := v.exp;
    if exp == 0x7ff {
      assert false;  // 2^54 times a subnormal is far from overflow
    }
    exp := exp - 54;
    var e2 := exp + n;
    if e2 <= 0 {
      if e2 <= -54 {
        UnderflowPath(x, n, e2);
        return Zero(sign);
      }
      RescalePath(x, n, e2 + 54, -54, v.frac);
      v := Fields(sign, e2 + 54, v.frac);
      return Mul(v, TwoPow(-54));
    }
    if e2 >= 0x7ff {
      OverflowPath(x, n, e2);
      return Infinity(sign);
    }
    PackPath(x, n, e2, v.frac);
    return Fields(sign, e2, v.frac);
  }

  /** The branch for normal numbers, include/maths.h:421-442. */
  method ScaleNormal(x: Double, n: int) returns (r: Double)
    requires 0 < x.exp < 0x7ff
    requires INT_MIN <= ExponentBase(x) + n <= INT_MAX
    ensures r == ScaleB(x, n)
  {
    var sign, mant := x.neg, x.frac;
    var e := x.exp + n;
    if e <= 0 {
      if e <= -54 {
        UnderflowPath(x, n, e);
        return Zero(sign);
      }
      var v := Fields(sign, 1, mant);
      var k := e - 1;
      var t := Fields(false, (1023 + k) % 0x800, 0);
      assert t == TwoPow(k);
      RescalePath(x, n, 1, k, mant);
      return Mul(v, t);
    }
    if e >= 0x7ff {
      OverflowPath(x, n, e);
      return Infinity(sign);
    }
    PackPath(x, n, e, mant);
    return Fields(sign, e, mant);
  }

  method Scalbn(x: Double, n: int) returns (r: Double)
    requires INT_MIN <= n <= INT_MAX
    requires IsFinite(x) && !IsZero(x) ==> INT_MIN <= ExponentBase(x) + n <= INT_MAX
    ensures r == ScaleB(x, n)
  {
    var sign, mant, exp := x.neg, x.frac, x.exp;

    // NaN or infinity
    if exp == 0x7ff {
      return x;
    }

    // Signed zero
    if exp == 0 && mant == 0 {
      ScaleBOfZero(x, n);
      return x;
    }

    // Subnormal: normalise first
    if exp == 0 {
      r := ScaleSubnormal(x, n);
      return;
    }

    r := ScaleNormal(x, n);
  }

  lemma ScaleBOfZero(x: Double, n: int)
    requires IsZero(x)
    ensures ScaleB(x, n) == x
  {
    var k := if n >= 0 then 0 else -n;
    assert 0 * Pow2(k) == 0;
    DivModUnique(0, Pow2(k), 0, 0);
  }

  /** The pre-scaled subnormal x * 2^54 is exact and carries the significand and exponent base. */
  lemma PrescaleOutcome(x: Double)
    requires x.exp == 0 && x.frac != 0
    ensures TWO52 <= Significand(x) < TWO53
    ensures Mul(x, TwoPow(54)) == Fields(x.neg, ExponentBase(x) + 54, Significand(x) - TWO52)
  {
    MulByTwoPow(x, 54);
    ScaleBNormalised(x, 54);
    PackPath(x, 54, ExponentBase(x) + 54, Significand(x) - TWO52);
  }
}
