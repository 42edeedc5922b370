/** Laws of scaling by powers of two, over all doubles and all scales. */
module ScaleBLaws {
  import opened Powers
  import opened Binary64
  import opened Rounding
  import opened Scalbn

  /** Scaling never reorders two doubles, whether the outcomes are zero, subnormal, normal or
      infinite. */
  lemma ScaleBMonotone(x: Double, y: Double, n: int)
    requires LessEq(x, y)
    ensures LessEq(ScaleB(x, n), ScaleB(y, n))
  {
    if Mag(x) <= Mag(y) {
      ScaledMagnitudes(x, y, n);
    }
    if Mag(y) <= Mag(x) {
      ScaledMagnitudes(y, x, n);
    }
    if x.neg != y.neg && Mag(x) == 0 == Mag(y) {
      ScaleBOfZero(x, n);
      ScaleBOfZero(y, n);
    }
  }

  lemma ScaledMagnitudes(x: Double, y: Double, n: int)
    requires !IsNaN(x) && !IsNaN(y) && Mag(x) <= Mag(y)
    ensures Mag(ScaleB(x, n)) <= Mag(ScaleB(y, n)) <= INF
    ensures ScaleB(x, n).neg == x.neg && ScaleB(y, n).neg == y.neg
  {
    if IsFinite(x) && IsFinite(y) {
      if Mag(x) < Mag(y) {
        ValueMono(Mag(x), Mag(y));
      }
      UnitsIsValue(x);
      UnitsIsValue(y);
      ScaledMagMono(Units(x), Units(y), n);
    }
  }

  lemma ScaledMagMono(u: nat, v: nat, n: int)
    requires u <= v
    ensures ScaledMag(u, n) <= ScaledMag(v, n)
  {
    if n >= 0 {
      MulLe(u, v, Pow2(n));
      RoundMagMono(u * Pow2(n), v * Pow2(n), 0);
    } else {
      RoundMagMono(u, v, -n);
    }
  }

  // ---- Composition ----

  /** x * 2^n is a double: no bit is shifted out at the bottom and nothing overflows at the top.
      NaN and infinity pass through every scaling, so they count as exact. */
  predicate ScalesExactly(x: Double, n: int)
  {
    IsFinite(x) ==>
      if n >= 0 then Units(x) * Pow2(n) < Value(INF) else Units(x) % Pow2(-n) == 0
  }

  /** Scaling up lands on a grid point. */
  lemma ScaledUp(i: nat, n: nat) returns (j: nat)
    ensures Value(j) == Value(i) * Pow2(n) && ScaledMag(Value(i), n) == Min(j, INF)
  {
    j := ValueDoubles(i, n);
    RoundMagExact(j, 0);
  }

  /** A finite result of scaling up is exact, and so is one that the exact value fits. */
  lemma ExactUp(x: Double, n: nat)
    requires IsFinite(x) && (IsFinite(ScaleB(x, n)) || Units(x) * Pow2(n) < Value(INF))
    ensures IsFinite(ScaleB(x, n)) && Units(ScaleB(x, n)) == Units(x) * Pow2(n)
  {
    UnitsIsValue(x);
    UnitsIsValue(ScaleB(x, n));
    var j := ScaledUp(Mag(x), n);
    if INF <= j { AtInfinity(j); }
  }

  /** Scaling down an exact multiple lands on a grid point. */
  lemma ScaledDown(i: nat, k: nat, q: nat) returns (j: nat)
    requires Value(i) == q * Pow2(k)
    ensures Value(j) == q && j <= i && RoundUnits(Value(i), k) == Min(j, INF)
  {
    j := GridHalves(i, k, q);
    RoundMagExact(j, k);
    NoLarger(i, j, q, Pow2(k));
  }

  lemma NoLarger(i: nat, j: nat, q: nat, p: nat)
    requires p > 0 && Value(i) == q * p && Value(j) == q
    ensures j <= i
  {
    MulLe(1, p, q);
    if i < j {
      ValueMono(i, j);
    }
  }

  lemma ExactDown(x: Double, k: nat, q: nat)
    requires IsFinite(x) && k > 0 && Units(x) == q * Pow2(k)
    ensures IsFinite(ScaleB(x, 0 - k)) && Units(ScaleB(x, 0 - k)) == q
  {
    UnitsIsValue(x);
    UnitsIsValue(ScaleB(x, 0 - k));
    var j := ScaledDown(Mag(x), k, q);
  }

  lemma AtInfinity(j: nat)
    requires INF <= j
    ensures Value(INF) <= Value(j)
  {
    if INF < j { ValueMono(INF, j); }
  }

  /** If a grid value is divisible by 2^k, the quotient is a grid value. */
  lemma {:induction false} GridHalves(i: nat, k: nat, q: nat) returns (j: nat)
    requires Value(i) == q * Pow2(k)
    ensures Value(j) == q
    decreases i
  {
    if i < TWO53 {
      MulLe(1, Pow2(k), q);
      j := q;
    } else if k == 0 {
      j := i;
    } else {
      MulAssoc(q, 2, Pow2(k - 1));
      assert q * Pow2(k) == 2 * (q * Pow2(k - 1));
      j := GridHalves(i - TWO52, k - 1, q);
    }
  }

  /** Scaling by a and then by b is scaling by a + b, for every b, exactly when the first scaling
      loses nothing. */
  lemma ComposesIffExact(x: Double, a: int)
    ensures (forall b: int :: ScaleB(ScaleB(x, a), b) == ScaleB(x, a + b)) <==> ScalesExactly(x, a)
  {
    if ScalesExactly(x, a) {
      forall b: int ensures ScaleB(ScaleB(x, a), b) == ScaleB(x, a + b) {
        ComposesWhenExact(x, a, b);
      }
    } else {
      ScaleBByZero(x);
      LossIsPermanent(x, a);
      assert ScaleB(ScaleB(x, a), -a) != ScaleB(x, a + -a);
    }
  }

  lemma ComposesWhenExact(x: Double, a: int, b: int)
    requires ScalesExactly(x, a)
    ensures ScaleB(ScaleB(x, a), b) == ScaleB(x, a + b)
  {
    if IsFinite(x) {
      if a >= 0 {
        ExactUp(x, a);
        ScaledMagShift(Units(x), a, b);
      } else {
        ExactDown(x, -a, Units(x) / Pow2(-a));
        ScaledMagShift(Units(ScaleB(x, a)), -a, a + b);
      }
    }
  }

  lemma ScaleBByZero(x: Double)
    ensures ScaleB(x, 0) == x
  {
    if IsFinite(x) {
      UnitsIsValue(x);
      RoundMagExact(Mag(x), 0);
      SameMag(ScaleB(x, 0), x);
    }
  }

  /** What a scaling loses, scaling back does not restore. */
  lemma LossIsPermanent(x: Double, a: int)
    requires !ScalesExactly(x, a)
    ensures ScaleB(ScaleB(x, a), -a) != x
  {
    if a >= 0 {
      OverflowIsPermanent(x, a);
    } else if ScaleB(ScaleB(x, a), -a) == x {
      ExactUp(ScaleB(x, a), -a);
      DivModUnique(Units(x), Pow2(-a), Units(ScaleB(x, a)), 0);
    }
  }

  lemma OverflowIsPermanent(x: Double, a: nat)
    requires !ScalesExactly(x, a)
    ensures ScaleB(x, a) == Infinity(x.neg)
  {
    UnitsIsValue(x);
    var j := ScaledUp(Mag(x), a);
    if j < INF { ValueMono(j, INF); }
  }

  /** Landing on a normal number is not enough: the largest number below twice the smallest
      normal, halved, rounds up to the smallest normal, and doubling that does not come back. */
  lemma NormalIntermediateIsNotEnough()
    ensures var x := Fields(false, 1, TWO52 - 1);
      && ScaleB(x, -1) == Fields(false, 1, 0)
      && ScaleB(ScaleB(x, -1), 1) == Fields(false, 2, 0)
      && ScaleB(x, -1 + 1) == x
  {
    var x := Fields(false, 1, TWO52 - 1);
    assert Units(x) == TWO53 - 1;
    assert Pow2(1) == 2;
    assert RoundMag(TWO53 - 1, 1) == TWO52;
    ScaleBByZero(x);
    ScaleBNormalised(Fields(false, 1, 0), 1);
    NormalOutcome(TWO52, 2);
  }

  /** When the first exponent sum stays in the normal range the composition always holds; this
      is the part of the law a caller can read off the exponent fields. */
  lemma ComposesInNormalRange(x: Double, a: int, b: int)
    requires IsFinite(x) && !IsZero(x) ==> 1 <= ExponentBase(x) + a < 0x7ff
    ensures ScaleB(ScaleB(x, a), b) == ScaleB(x, a + b)
  {
    if IsZero(x) {
      ScaleBOfZero(x, a);
      ScaleBOfZero(x, b);
      ScaleBOfZero(x, a + b);
    } else if IsFinite(x) {
      ScaleBNormalised(x, a);
      var e, s := ExponentBase(x) + a, Significand(x);
      PackPath(x, a, e, s - TWO52);
      ScaleBNormalised(x, a + b);
      ScaledMagShift(s, e - 1, b);
    }
  }
}
