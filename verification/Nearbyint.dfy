/** `nearbyint` of include/maths.h:352-362: round to integer by adding and subtracting 2^52. */
module Nearbyint {
  import opened Powers
  import opened Binary64
  import opened Rounding
  import opened Scalbn
  import opened ScaleBLaws

  /** The comparison `x >= 0.0`: true of both zeros, false of NaN. */
  predicate AtLeastZero(x: Double)
  {
    LessEq(Zero(false), x)
  }

  /** |x| < 2^52, the range the documentation promises. */
  predicate InRange(x: Double)
  {
    Mag(x) < Mag(TwoPow(52))
  }

  /** r is x rounded to an integer: |x| to the nearest, ties to even, with the sign of x except
      that the negative zero becomes positive.  `one` is the number of units in the double 1.0. */
  predicate IsRoundedInteger(r: Double, x: Double, one: nat)
    requires one > 0
  {
    IsFinite(r) && Units(r) == HalfEven(Units(x), one) * one && (r.neg <==> x.neg && !IsZero(x))
  }

  // ---- Adding 2^52 rounds to integers, subtracting it is exact ----

  /** In the binade [2^52, 2^53) * 2^k the grid spacing is 2^k. */
  lemma {:induction false} RoundInBinade(a: nat, k: nat, j: nat)
    requires j <= k && TWO52 * Pow2(k) <= a < TWO53 * Pow2(k)
    ensures RoundMag(a, j) == (k - j) * TWO52 + HalfEven(a, Pow2(k))
    decreases k - j
  {
    if j < k {
      Pow2Mono(j + 1, k);
      MulLe(Pow2(j + 1), Pow2(k), TWO52);
      RoundInBinade(a, k, j + 1);
    }
  }

  /** The value of a rounded binade member, including the carry into the next binade. */
  lemma BinadeValue(h: nat, k: nat)
    requires TWO52 <= h <= TWO53
    ensures Value(k * TWO52 + h) == h * Pow2(k)
  {
    if h < TWO53 {
      ValueOfFields(k + 1, h - TWO52);
    } else {
      ValueOfFields(k + 2, 0);
      MulAssoc(TWO52, 2, Pow2(k));
    }
  }

  lemma HalfEvenShift(a: nat, d: nat)
    requires d > 0
    ensures HalfEven(a + TWO52 * d, d) == TWO52 + HalfEven(a, d)
  {
    var q, r := a / d, a % d;
    assert a + TWO52 * d == (q + TWO52) * d + r;
    DivModUnique(a + TWO52 * d, d, q + TWO52, r);
  }

  lemma UnitsBelow(x: Double, k: nat)
    requires x.exp <= k && k >= 1
    ensures Units(x) < TWO52 * Pow2(k)
  {
    if x.exp > 0 {
      Pow2Mono(x.exp, k);
      MulLt(TWO52 + x.frac, TWO53, Pow2(x.exp - 1));
      MulAssoc(TWO52, 2, Pow2(x.exp - 1));
      MulLe(Pow2(x.exp), Pow2(k), TWO52);
    } else {
      MulLe(1, Pow2(k), TWO52);
    }
  }

  lemma AddRounds(x: Double, big: Double, k: nat)
    requires !x.neg && x.exp <= k && 1 <= k <= 2000 && big == Fields(false, k + 1, 0)
    ensures var y := Add(x, big);
      && IsFinite(y) && !y.neg
      && Units(y) == (TWO52 + HalfEven(Units(x), Pow2(k))) * Pow2(k)
  {
    UnitsBelow(x, k);
    BigUnits(big, k);
    AddShifted(x, big, Units(x), k);
  }

  lemma AddShifted(x: Double, big: Double, u: nat, k: nat)
    requires IsFinite(x) && IsFinite(big) && !x.neg && !big.neg && k <= 2000
    requires Units(x) == u < TWO52 * Pow2(k) && Units(big) == TWO52 * Pow2(k)
    ensures var y := Add(x, big);
      IsFinite(y) && !y.neg && Units(y) == (TWO52 + HalfEven(u, Pow2(k))) * Pow2(k)
  {
    ShiftedBounds(u, Pow2(k));
    HalfEvenShift(u, Pow2(k));
    SumInBinade(x, big, u + TWO52 * Pow2(k), k, TWO52 + HalfEven(u, Pow2(k)));
  }

  lemma ShiftedBounds(u: nat, d: nat)
    requires d > 0 && u < TWO52 * d
    ensures TWO52 * d <= u + TWO52 * d < TWO53 * d && HalfEven(u, d) <= TWO52
  {
    HalfEvenBounds(u, d, 0, TWO52);
    Distribute(TWO52, TWO52, d);
  }

  lemma BigUnits(big: Double, k: nat)
    requires big == Fields(false, k + 1, 0)
    ensures Units(big) == TWO52 * Pow2(k)
  {
  }

  lemma SubIsExact(y: Double, big: Double, n: nat, k: nat)
    requires IsFinite(y) && !y.neg && n <= TWO53 && 1 <= k <= 2000 && big == Fields(false, k + 1, 0)
    requires Units(y) == (TWO52 + n) * Pow2(k)
    ensures var r := Sub(y, big); IsFinite(r) && !r.neg && Units(r) == n * Pow2(k)
  {
    Distribute(TWO52, n, Pow2(k));
    assert Signed(y) + Signed(Negate(big)) == n * Pow2(k);
    IntegerFits(n, k);
    SumIsNat(y, Negate(big), n * Pow2(k));
    UnitsIsValue(Sub(y, big));
  }

  lemma SumIsNat(x: Double, y: Double, u: nat)
    requires IsFinite(x) && IsFinite(y) && !x.neg && Signed(x) + Signed(y) == u && RoundMag(u, 0) < INF
    ensures Add(x, y) == FromMag(false, RoundMag(u, 0))
  {
  }

  /** Every integer up to 2^53 is a double. */
  lemma IntegerFits(n: nat, k: nat)
    requires n <= TWO53 && k <= 2000
    ensures RoundMag(n * Pow2(k), 0) < INF && Value(RoundMag(n * Pow2(k), 0)) == n * Pow2(k)
  {
    assert Value(n) == n;
    var j := ValueDoubles(n, k);
    RoundMagExact(j, 0);
    ValueOfFields(k + 2, 0);
    MulLe(n, TWO53, Pow2(k));
    MulAssoc(TWO52, 2, Pow2(k));
    if (k + 2) * TWO52 < j {
      ValueMono((k + 2) * TWO52, j);
    }
  }

  lemma ThroughBig(x: Double, r: Double, big: Double, k: nat)
    requires !x.neg && x.exp <= k && 1 <= k <= 2000 && big == Fields(false, k + 1, 0)
    requires r == Sub(Add(x, big), big)
    ensures IsRoundedInteger(r, x, Pow2(k))
  {
    AddRounds(x, big, k);
    UnitsBelow(x, k);
    HalfEvenBounds(Units(x), Pow2(k), 0, TWO52);
    SubIsExact(Add(x, big), big, HalfEven(Units(x), Pow2(k)), k);
    UnitsOfZero(x);
  }

  lemma NegativeZeroSum(big: Double)
    requires !big.neg && IsFinite(big)
    ensures Add(Zero(true), big) == Add(Zero(false), big)
  {
  }

  // ---- The function ----

  /** Up to 2^52 the result is the rounded integer.  Beyond, where every finite double is an integer,
      the double stays as it is exactly when `StaysPut` says so, and otherwise moves as `OffBy` says. */
  method Nearbyint(x: Double) returns (r: Double)
    ensures InRange(x) ==> IsRoundedInteger(r, x, Pow2(1074))
    ensures GoesBeyond(r, x, 1074)
    ensures (IsInf(x) ==> r == x) && (IsNaN(x) ==> IsNaN(r))
  {
    var two52 := TwoPow(52);
    if AtLeastZero(x) {
      var y := Add(x, two52);
      r := Sub(y, two52);
      AtLeastZeroPath(x, r, two52, 1074);
    } else {
      var y := Add(Negate(x), two52);
      r := Negate(Sub(y, two52));
      BelowZeroPath(x, r, two52, 1074);
    }
  }

  // ---- Beyond the range ----

  /** From 2^52 on every double is an integer and should stay as it is.  With a spacing of 2^j it does
      so for j <= 52 when adding 2^52 stays in the binade or leads to an even multiple of the
      spacing; for j = 53, when 2^52 is half the spacing, when it is an even multiple of the spacing
      and not a power of two; and always from there on. */
  predicate StaysPut(frac: nat, j: nat)
  {
    if j <= 52 then frac + Pow2(52 - j) < TWO52 || (frac + Pow2(52 - j)) % 2 == 0
    else j > 53 || (frac % 2 == 0 && frac != 0)
  }

  /** By how many half spacings the result is off: one spacing up or down to where the sum is a
      multiple of four spacings; for j = 53 half a spacing down from a power of two, and otherwise one
      spacing up. */
  function OffBy(frac: nat, j: nat): (h: int)
  {
    if StaysPut(frac, j) then 0
    else if j <= 52 then if (frac + Pow2(52 - j)) % 4 == 1 then -2 else 2
    else if frac == 0 then -1 else 2
  }

  /** r is finite, has the sign of x and is h half spacings of x away from it, outward if h > 0. */
  predicate IsOffBy(r: Double, x: Double, h: int)
    requires x.exp > 0
  {
    IsFinite(r) && r.neg == x.neg && 2 * Units(r) == 2 * Units(x) + h * Pow2(x.exp - 1)
  }

  lemma Distribute(a: nat, b: nat, c: nat)
    ensures a * c + b * c == (a + b) * c
  {
  }

  /** A sum of u units that falls into the binade with spacing 2^p. */
  lemma SumInBinade(x: Double, y: Double, u: nat, p: nat, h: nat)
    requires IsFinite(x) && IsFinite(y) && !x.neg && Signed(x) + Signed(y) == u
    requires TWO52 * Pow2(p) <= u < TWO53 * Pow2(p) && h == HalfEven(u, Pow2(p)) && p * TWO52 + h < INF
    ensures var z := Add(x, y); IsFinite(z) && !z.neg && Units(z) == h * Pow2(p)
  {
    HalfEvenBounds(u, Pow2(p), TWO52, TWO53);
    RoundInBinade(u, p, 0);
    BinadeValue(h, p);
    SumIsNat(x, y, u);
    UnitsIsValue(Add(x, y));
  }

  /** An odd number of half spacings is a tie. */
  lemma HalfEvenTie(n: nat, q: nat)
    requires q > 0
    ensures HalfEven((2 * n + 1) * q, 2 * q) == n + n % 2
  {
    OddHalves(n, q);
    DivModUnique((2 * n + 1) * q, 2 * q, n, q);
  }

  lemma OddHalves(n: nat, q: nat)
    ensures (2 * n + 1) * q == n * (2 * q) + q
  {
  }

  lemma TieBounds(n: nat, q: nat)
    requires TWO52 <= n < TWO53 && q > 0
    ensures TWO52 * (2 * q) <= (2 * n + 1) * q < TWO53 * (2 * q)
  {
    OddHalves(n, q);
    MulLe(TWO52, n, 2 * q);
    MulLe(n + 1, TWO53, 2 * q);
    Distribute(n, 1, 2 * q);
  }

  /** A sum halfway between two neighbours goes to the even one. */
  lemma TieInBinade(x: Double, y: Double, n: nat, q: nat, p: nat)
    requires IsFinite(x) && IsFinite(y) && !x.neg && Signed(x) + Signed(y) == (2 * n + 1) * q
    requires Pow2(p) == 2 * q && TWO52 <= n < TWO53 && p <= 2001
    ensures var z := Add(x, y); IsFinite(z) && !z.neg && Units(z) == (n + n % 2) * Pow2(p)
  {
    HalfEvenTie(n, q);
    TieBounds(n, q);
    SumInBinade(x, y, (2 * n + 1) * q, p, n + n % 2);
  }

  lemma HalfEvenOfWhole(m: nat, d: nat, q: nat, up: bool)
    requires d > 0 && 2 * q < d && (up || m > 0)
    ensures HalfEven(if up then m * d + q else m * d - q, d) == m
  {
    if up || q == 0 {
      DivModUnique(m * d + q, d, m, q);
    } else {
      assert m * d - q == (m - 1) * d + (d - q);
      DivModUnique(m * d - q, d, m - 1, d - q);
    }
  }

  /** A double whose units are n spacings of its own binade is the double itself. */
  lemma SameDouble(r: Double, x: Double, n: nat, p: nat)
    requires x.exp == p + 1 && !x.neg && !r.neg && IsFinite(r) && Units(r) == n * Pow2(p)
    ensures r == x <==> n == TWO52 + x.frac
  {
    if n == TWO52 + x.frac {
      SameUnits(r, x);
    }
    if r == x {
      MulCancel(n, TWO52 + x.frac, Pow2(p));
    }
  }

  /** j <= 52: 2^52 is c spacings, and the sum is w of them, in the binade of x or in the next. */
  lemma SameBinade(x: Double, big: Double, w: nat, p: nat)
    requires IsFinite(x) && IsFinite(big) && !x.neg && !big.neg && p <= 2001
    requires Units(x) + Units(big) == w * Pow2(p) && TWO52 <= w < TWO53
    ensures var y := Add(x, big); IsFinite(y) && !y.neg && Units(y) == w * Pow2(p)
  {
    var d := Pow2(p);
    MulLe(TWO52, w, d);
    MulLt(w, TWO53, d);
    DivModUnique(w * d, d, w, 0);
    SumInBinade(x, big, w * d, p, w);
  }

  lemma EvenSum(x: Double, big: Double, v: nat, p: nat)
    requires IsFinite(x) && IsFinite(big) && !x.neg && !big.neg && p <= 2000
    requires Units(x) + Units(big) == 2 * v * Pow2(p) && TWO52 <= v < TWO53
    ensures var y := Add(x, big); IsFinite(y) && !y.neg && Units(y) == 2 * v * Pow2(p)
  {
    MulAssoc(v, 2, Pow2(p));
    SameBinade(x, big, v, p + 1);
  }

  lemma OddSum(x: Double, big: Double, v: nat, p: nat)
    requires IsFinite(x) && IsFinite(big) && !x.neg && !big.neg && p <= 2000
    requires Units(x) + Units(big) == (2 * v + 1) * Pow2(p) && TWO52 <= v < TWO53
    ensures var y := Add(x, big); IsFinite(y) && !y.neg && Units(y) == 2 * (v + v % 2) * Pow2(p)
  {
    TieInBinade(x, big, v, Pow2(p), p + 1);
    MulAssoc(v + v % 2, 2, Pow2(p));
  }

  /** The multiple of the spacing on which a sum of w spacings lands. */
  function Landed(w: nat): (m: nat)
  {
    if w < TWO53 || w % 2 == 0 then w else 2 * (w / 2 + w / 2 % 2)
  }

  lemma LandsOn(x: Double, big: Double, w: nat, p: nat)
    requires IsFinite(x) && IsFinite(big) && !x.neg && !big.neg && p <= 2000
    requires Units(x) + Units(big) == w * Pow2(p) && TWO52 <= w < 2 * TWO53
    ensures var y := Add(x, big); IsFinite(y) && !y.neg && Units(y) == Landed(w) * Pow2(p)
  {
    if w < TWO53 {
      SameBinade(x, big, w, p);
    } else if w % 2 == 0 {
      assert w == 2 * (w / 2);
      EvenSum(x, big, w / 2, p);
    } else {
      assert w == 2 * (w / 2) + 1;
      OddSum(x, big, w / 2, p);
    }
  }

  lemma LandsRight(f: nat)
    ensures Landed(TWO52 + f) == TWO52 + f <==> f < TWO52 || f % 2 == 0
    ensures TWO52 + f - 1 <= Landed(TWO52 + f) <= TWO52 + f + 1
  {
    assert (TWO52 + f) % 2 == f % 2;
    LandsNear(TWO52 + f);
  }

  lemma LandsNear(w: nat)
    ensures Landed(w) == w <==> w < TWO53 || w % 2 == 0
    ensures w - 1 <= Landed(w) <= w + 1
  {
    var v := w / 2;
    assert w == 2 * v + w % 2;
  }

  lemma AddSpacings(x: Double, big: Double, c: nat, p: nat, w: nat)
    requires !x.neg && !big.neg && x.exp == p + 1 && IsFinite(big) && p <= 2000
    requires Units(big) == c * Pow2(p) && c <= TWO52 && w == TWO52 + x.frac + c
    ensures var y := Add(x, big); IsFinite(y) && !y.neg && Units(y) == Landed(w) * Pow2(p)
  {
    Distribute(TWO52 + x.frac, c, Pow2(p));
    LandsOn(x, big, w, p);
  }

  lemma SubSpacings(y: Double, big: Double, m: nat, c: nat, p: nat)
    requires IsFinite(y) && IsFinite(big) && !y.neg && !big.neg && p <= 2000 && c <= m <= TWO53 + c
    requires Units(y) == m * Pow2(p) && Units(big) == c * Pow2(p)
    ensures var r := Sub(y, big); IsFinite(r) && !r.neg && Units(r) == (m - c) * Pow2(p)
  {
    Distribute(m - c, c, Pow2(p));
    IntegerFits(m - c, p);
    SumIsNat(y, Negate(big), (m - c) * Pow2(p));
    UnitsIsValue(Sub(y, big));
  }

  lemma NearBeyond(x: Double, r: Double, big: Double, c: nat, p: nat)
    requires !x.neg && !big.neg && x.exp == p + 1 && IsFinite(big) && p <= 2000
    requires Units(big) == c * Pow2(p) && 0 < c <= TWO52 && r == Sub(Add(x, big), big)
    ensures r == x <==> x.frac + c < TWO52 || (x.frac + c) % 2 == 0
    ensures IsFinite(r) && !r.neg && Units(r) == (Landed(TWO52 + x.frac + c) - c) * Pow2(p)
  {
    var f := x.frac + c;
    AddSpacings(x, big, c, p, TWO52 + f);
    LandsRight(f);
    SubSpacings(Add(x, big), big, Landed(TWO52 + f), c, p);
    SameDouble(r, x, Landed(TWO52 + f) - c, p);
  }

  /** j = 53: 2^52 is half a spacing of q units. */
  lemma HalfSpacing(x: Double, r: Double, big: Double, q: nat, p: nat)
    requires !x.neg && !big.neg && x.exp == p + 1 && IsFinite(big) && 1 <= p <= 2000
    requires Units(big) == q == Pow2(p - 1) && r == Sub(Add(x, big), big)
    ensures r == x <==> x.frac % 2 == 0 && x.frac != 0
    ensures IsFinite(r) && !r.neg
    ensures Units(r) == if x.frac == 0 then (TWO53 - 1) * q else (TWO52 + x.frac + x.frac % 2) * Pow2(p)
  {
    var m := TWO52 + x.frac + x.frac % 2;
    HalfUp(x, big, q, p, m);
    if x.frac == 0 {
      PowerHalfDown(Add(x, big), r, big, q, p);
      HalfBelowPower(x, r, q, p);
    } else {
      EvenAbove(x.frac, m - 1);
      TieBelow(Add(x, big), Negate(big), q, p, m - 1);
      SameDouble(r, x, m, p);
    }
  }

  lemma EvenAbove(f: nat, n: nat)
    requires 0 < f < TWO52 && n + 1 == TWO52 + f + f % 2
    ensures TWO52 <= n < TWO53 && n % 2 == 1
  {
  }

  lemma HalfBelowPower(x: Double, r: Double, q: nat, p: nat)
    requires x.exp == p + 1 && x.frac == 0 && q > 0 && Pow2(p) == 2 * q && Units(r) == (TWO53 - 1) * q
    ensures r != x
  {
    MulLt(TWO53 - 1, TWO53, q);
    MulAssoc(TWO52, 2, q);
  }

  lemma HalfUp(x: Double, big: Double, q: nat, p: nat, m: nat)
    requires !x.neg && !big.neg && x.exp == p + 1 && IsFinite(big) && 1 <= p <= 2000
    requires Units(big) == q && q > 0 && Pow2(p) == 2 * q && m == TWO52 + x.frac + x.frac % 2
    ensures var y := Add(x, big); IsFinite(y) && !y.neg && Units(y) == m * Pow2(p)
  {
    var n := TWO52 + x.frac;
    assert n + n % 2 == m;
    OddHalves(n, q);
    TieInBinade(x, big, n, q, p);
  }

  lemma TieBelow(y: Double, z: Double, q: nat, p: nat, n: nat)
    requires IsFinite(y) && IsFinite(z) && !y.neg && p <= 2000
    requires q > 0 && Pow2(p) == 2 * q && Signed(y) == (n + 1) * Pow2(p) && Signed(z) == 0 - q
    requires TWO52 <= n < TWO53 && n % 2 == 1
    ensures var r := Add(y, z); IsFinite(r) && !r.neg && Units(r) == (n + 1) * Pow2(p)
  {
    OddHalvesBelow(n, q);
    TieInBinade(y, z, n, q, p);
  }

  lemma OddHalvesBelow(n: nat, q: nat)
    ensures (n + 1) * (2 * q) - q == (2 * n + 1) * q
  {
    OddHalves(n, q);
    Distribute(n, 1, 2 * q);
  }

  /** Half a spacing below a power of two is a double. */
  lemma PowerHalfDown(y: Double, r: Double, big: Double, q: nat, p: nat)
    requires IsFinite(y) && !y.neg && !big.neg && IsFinite(big) && 1 <= p <= 2000
    requires Units(big) == q == Pow2(p - 1) && Units(y) == TWO52 * Pow2(p) && r == Sub(y, big)
    ensures IsFinite(r) && !r.neg && Units(r) == (TWO53 - 1) * q
  {
    MulAssoc(TWO52, 2, q);
    Distribute(TWO53 - 1, 1, q);
    MulLe(TWO52, TWO53 - 1, q);
    MulLt(TWO53 - 1, TWO53, q);
    DivModUnique((TWO53 - 1) * q, q, TWO53 - 1, 0);
    SumInBinade(y, Negate(big), (TWO53 - 1) * q, p - 1, TWO53 - 1);
  }

  /** j > 53: 2^52 is at most a quarter of a spacing. */
  lemma FarBeyond(x: Double, r: Double, big: Double, q: nat, p: nat)
    requires !x.neg && !big.neg && x.exp == p + 1 && IsFinite(x) && IsFinite(big) && 1 <= p
    requires Units(big) == q && 0 < 4 * q <= Pow2(p) && r == Sub(Add(x, big), big)
    ensures r == x
  {
    var n, d := TWO52 + x.frac, Pow2(p);
    HalfEvenOfWhole(n, d, q, true);
    MulLe(TWO52, n, d);
    MulLe(n + 1, TWO53, d);
    Distribute(n, 1, d);
    SumInBinade(x, big, n * d + q, p, n);
    SameDouble(Add(x, big), x, n, p);
    BackDown(x, r, big, q, p);
  }

  lemma BackDown(x: Double, r: Double, big: Double, q: nat, p: nat)
    requires !x.neg && !big.neg && x.exp == p + 1 && IsFinite(x) && IsFinite(big) && 1 <= p
    requires Units(big) == q && 0 < 4 * q <= Pow2(p) && r == Sub(x, big)
    ensures r == x
  {
    var n, d := TWO52 + x.frac, Pow2(p);
    if x.frac > 0 {
      JustBelow(n, d, q);
      HalfEvenOfWhole(n, d, q, false);
      SumInBinade(x, Negate(big), n * d - q, p, n);
      SameDouble(r, x, n, p);
    } else {
      PowerBackDown(x, r, big, q, p, Pow2(p - 1));
    }
  }

  lemma JustBelow(n: nat, d: nat, q: nat)
    requires TWO52 < n < TWO53 && 0 < q <= d
    ensures TWO52 * d <= n * d - q < TWO53 * d
  {
    MulLe(TWO52, n - 1, d);
    Distribute(n - 1, 1, d);
    MulLt(n, TWO53, d);
  }

  /** Below a power of two the spacing is half as large. */
  lemma PowerBackDown(x: Double, r: Double, big: Double, q: nat, p: nat, e: nat)
    requires !x.neg && !big.neg && x.exp == p + 1 && x.frac == 0 && IsFinite(x) && IsFinite(big) && 1 <= p
    requires Units(big) == q && e == Pow2(p - 1) && 0 < 2 * q <= e && r == Sub(x, big)
    ensures r == x
  {
    assert Pow2(p) == 2 * e;
    MulAssoc(TWO52, 2, e);
    HalfEvenDown(TWO53, e, q);
    Distribute(TWO53 - 1, 1, e);
    MulLe(TWO52, TWO53 - 1, e);
    SumInBinade(x, Negate(big), TWO53 * e - q, p - 1, TWO53);
    assert Units(r) == TWO52 * Pow2(p);
    SameDouble(r, x, TWO52, p);
  }

  lemma HalfEvenDown(m: nat, e: nat, q: nat)
    requires m > 0 && m % 2 == 0 && 0 < 2 * q <= e
    ensures HalfEven(m * e - q, e) == m
  {
    Distribute(m - 1, 1, e);
    DivModUnique(m * e - q, e, m - 1, e - q);
    assert (m - 1) % 2 == 1;
  }

  /** What becomes of a double from 2^52 on, with k the spacing of ones: unchanged exactly when
      `StaysPut` says so, and otherwise off by what `OffBy` says. */
  predicate GoesBeyond(r: Double, x: Double, k: nat)
  {
    IsFinite(x) && x.exp > k ==>
      (r == x <==> StaysPut(x.frac, x.exp - 1 - k)) && IsOffBy(r, x, OffBy(x.frac, x.exp - 1 - k))
  }

  /** All doubles from 2^52 on. */
  lemma BeyondRange(x: Double, r: Double, big: Double, k: nat)
    requires 1 <= k <= 1100 && big == Fields(false, k + 1, 0) && r == Sub(Add(x, big), big) && !x.neg
    ensures GoesBeyond(r, x, k)
  {
    if IsFinite(x) && x.exp > k {
      var j := x.exp - 1 - k;
      if j <= 52 {
        BeyondNear(x, r, big, k, j);
      } else if j == 53 {
        BigInSpacings(big, k, j);
        HalfSpacing(x, r, big, Pow2(k + 52), k + 53);
        HalfOff(x, r, Pow2(k + 52));
      } else {
        BigInSpacings(big, k, j);
        FarBeyond(x, r, big, Pow2(k + 52), k + j);
      }
    }
  }

  lemma BeyondNear(x: Double, r: Double, big: Double, k: nat, j: nat)
    requires 1 <= k <= 1100 && big == Fields(false, k + 1, 0) && r == Sub(Add(x, big), big) && !x.neg
    requires IsFinite(x) && x.exp == k + j + 1 && j <= 52
    ensures (r == x <==> StaysPut(x.frac, j)) && IsOffBy(r, x, OffBy(x.frac, j))
  {
    var c := Pow2(52 - j);
    BigInSpacings(big, k, j);
    StaysPutNear(x.frac, j, c);
    NearBeyond(x, r, big, c, k + j);
    LandsRight(x.frac + c);
    NearOff(x, r, c, j);
  }

  /** The displacement for j <= 52. */
  lemma NearOff(x: Double, r: Double, c: nat, j: nat)
    requires x.exp > 0 && j <= 52 && c == Pow2(52 - j) && !x.neg && IsFinite(r) && !r.neg
    requires c <= Landed(TWO52 + x.frac + c) && Units(r) == (Landed(TWO52 + x.frac + c) - c) * Pow2(x.exp - 1)
    ensures IsOffBy(r, x, OffBy(x.frac, j))
  {
    var h := LandedBy(x.frac + c);
    StaysPutNear(x.frac, j, c);
    assert OffBy(x.frac, j) == h;
    OffProduct(TWO52 + x.frac, Landed(TWO52 + x.frac + c) - c, h, Pow2(x.exp - 1));
  }

  /** Where a sum of 2^52 + f spacings lands, in half spacings from where it should. */
  lemma LandedBy(f: nat) returns (h: int)
    ensures h == if f < TWO52 || f % 2 == 0 then 0 else if f % 4 == 1 then -2 else 2
    ensures 2 * Landed(TWO52 + f) == 2 * (TWO52 + f) + h
  {
    LandsRight(f);
    if f < TWO52 || f % 2 == 0 {
      h := 0;
    } else {
      var u := f / 4;
      assert f == 4 * u + f % 4;
      LandedOdd(TWO52 / 4 + u, f % 4);
      h := if f % 4 == 1 then -2 else 2;
    }
  }

  lemma LandedOdd(u: nat, s: nat)
    requires (s == 1 || s == 3) && 4 * u + s >= TWO53
    ensures Landed(4 * u + s) == if s == 1 then 4 * u else 4 * u + 4
  {
    var w := 4 * u + s;
    assert w / 2 == 2 * u + s / 2 && w % 2 == 1;
  }

  lemma OffProduct(n: nat, m: nat, h: int, d: nat)
    requires 2 * m == 2 * n + h
    ensures 2 * (m * d) == 2 * (n * d) + h * d
  {
    assert (2 * m) * d == (2 * n + h) * d;
  }

  /** The displacement for j = 53. */
  lemma HalfOff(x: Double, r: Double, q: nat)
    requires x.exp > 0 && !x.neg && IsFinite(r) && !r.neg && q > 0 && Pow2(x.exp - 1) == 2 * q
    requires Units(r) == if x.frac == 0 then (TWO53 - 1) * q else (TWO52 + x.frac + x.frac % 2) * Pow2(x.exp - 1)
    ensures IsOffBy(r, x, OffBy(x.frac, 53))
  {
    var d := Pow2(x.exp - 1);
    if x.frac == 0 {
      MulAssoc(TWO52, 2, q);
      Distribute(TWO53 - 1, 1, q);
    } else {
      OffProduct(TWO52 + x.frac, TWO52 + x.frac + x.frac % 2, 2 * (x.frac % 2), d);
    }
  }

  lemma StaysPutNear(frac: nat, j: nat, c: nat)
    requires j <= 52 && c == Pow2(52 - j)
    ensures StaysPut(frac, j) <==> frac + c < TWO52 || (frac + c) % 2 == 0
  {
  }

  /** How 2^52 compares with the spacing 2^j. */
  lemma BigInSpacings(big: Double, k: nat, j: nat)
    requires big == Fields(false, k + 1, 0)
    ensures Units(big) == Pow2(k + 52)
    ensures j <= 52 ==> Units(big) == Pow2(52 - j) * Pow2(k + j) && 0 < Pow2(52 - j) <= TWO52
    ensures j > 53 ==> 0 < 4 * Pow2(k + 52) <= Pow2(k + j)
  {
    Pow2Literals();
    Pow2Add(52, k);
    if j <= 52 {
      Pow2Add(52 - j, k + j);
      Pow2Mono(52 - j, 52);
    } else if j > 53 {
      Pow2Mono(k + 54, k + j);
    }
  }

  lemma AtLeastZeroPath(x: Double, r: Double, big: Double, k: nat)
    requires AtLeastZero(x) && 1 <= k <= 1100 && big == Fields(false, k + 1, 0)
    requires r == Sub(Add(x, big), big)
    ensures x.exp <= k ==> IsRoundedInteger(r, x, Pow2(k))
    ensures GoesBeyond(r, x, k)
  {
    if x.exp <= k {
      NegativeZeroSum(big);
      ThroughBig(Fields(false, x.exp, x.frac), r, big, k);
    }
    if x.exp > k {
      BeyondRange(x, r, big, k);
    }
  }

  lemma BelowZeroPath(x: Double, r: Double, big: Double, k: nat)
    requires !AtLeastZero(x) && 1 <= k <= 1100 && big == Fields(false, k + 1, 0)
    requires Negate(r) == Sub(Add(Negate(x), big), big)
    ensures x.exp <= k ==> IsRoundedInteger(r, x, Pow2(k))
    ensures GoesBeyond(r, x, k)
  {
    if x.exp <= k {
      ThroughBig(Negate(x), Negate(r), big, k);
      FlipSigns(r, x, Pow2(k));
    }
    if x.exp > k && IsFinite(x) {
      BeyondRange(Negate(x), Negate(r), big, k);
      FlipBeyond(r, x, k);
    }
  }

  lemma FlipBeyond(r: Double, x: Double, k: nat)
    requires GoesBeyond(Negate(r), Negate(x), k)
    ensures GoesBeyond(r, x, k)
  {
    assert Units(Negate(x)) == Units(x) && Units(Negate(r)) == Units(r);
  }

  lemma FlipSigns(r: Double, x: Double, one: nat)
    requires one > 0 && IsRoundedInteger(Negate(r), Negate(x), one) && x.neg && !IsZero(x)
    ensures IsRoundedInteger(r, x, one)
  {
  }

  // ---- The promise ----

  /** The result is an integer m, no integer z is nearer to x, and a tie goes to the even one. */
  lemma RoundedIntegerIsNearest(r: Double, x: Double, z: int, one: nat) returns (m: int)
    requires one > 0 && IsRoundedInteger(r, x, one)
    ensures Signed(r) == m * one
    ensures Abs(m * one - Signed(x)) <= Abs(z * one - Signed(x))
    ensures Abs(m * one - Signed(x)) == Abs(z * one - Signed(x)) && m * one != z * one ==> m % 2 == 0
  {
    m := if r.neg then 0 - HalfEven(Units(x), one) else HalfEven(Units(x), one);
    if IsZero(x) {
      DivModUnique(0, one, 0, 0);
    } else {
      NegatedProduct(HalfEven(Units(x), one), one);
    }
    NearestSigned(Units(x), one, z, r.neg);
  }

  lemma NearestSigned(a: nat, d: nat, z: int, neg: bool)
    requires d > 0
    ensures var n := HalfEven(a, d);
      var m, s := if neg then 0 - n else n, if neg then 0 - a else a;
      && Abs(m * d - s) <= Abs(z * d - s)
      && (Abs(m * d - s) == Abs(z * d - s) && m * d != z * d ==> m % 2 == 0)
  {
    var n := HalfEven(a, d);
    if neg {
      NegatedDistance(n, a, d);
      NegatedDistance(0 - z, a, d);
      NearestAmongIntegers(a, d, 0 - z);
      NegatedParity(n);
    } else {
      NearestAmongIntegers(a, d, z);
    }
  }

  lemma NegatedProduct(z: int, d: nat)
    ensures (0 - z) * d == 0 - z * d
  {
  }

  lemma NegatedDistance(z: int, a: nat, d: nat)
    ensures (0 - z) * d == 0 - z * d
    ensures Abs((0 - z) * d - (0 - a)) == Abs(z * d - a)
  {
    NegatedProduct(z, d);
  }

  lemma NegatedParity(n: nat)
    ensures (0 - n) % 2 == 0 <==> n % 2 == 0
  {
  }

  lemma NearestAmongIntegers(a: nat, d: nat, z: int)
    requires d > 0
    ensures Abs(HalfEven(a, d) * d - a) <= Abs(z * d - a)
    ensures Abs(HalfEven(a, d) * d - a) == Abs(z * d - a) && HalfEven(a, d) * d != z * d ==> HalfEven(a, d) % 2 == 0
  {
    if z >= 0 {
      HalfEvenNearest(a, d, z);
    } else {
      HalfEvenNearest(a, d, 0);
      MulLe(z, -1, d);
    }
  }

  /** The relation leaves no choice of bits. */
  lemma RoundedIntegerUnique(r: Double, r': Double, x: Double, one: nat)
    requires one > 0 && IsRoundedInteger(r, x, one) && IsRoundedInteger(r', x, one)
    ensures r == r'
  {
    SameUnits(r, r');
  }

  lemma SameUnits(x: Double, y: Double)
    requires Units(x) == Units(y)
    ensures Mag(x) == Mag(y)
    ensures x.neg == y.neg ==> x == y
  {
    UnitsIsValue(x);
    UnitsIsValue(y);
    if Mag(x) < Mag(y) { ValueMono(Mag(x), Mag(y)); }
    if Mag(y) < Mag(x) { ValueMono(Mag(y), Mag(x)); }
    if x.neg == y.neg { SameMag(x, y); }
  }

  /** Against roundToIntegralTiesToEven of section 5.9, which keeps the sign of x: the code
      agrees exactly when x is not the negative zero. */
  lemma SignKeptIffNotNegativeZero(r: Double, x: Double, one: nat)
    requires one > 0 && IsRoundedInteger(r, x, one)
    ensures r.neg == x.neg <==> x != Zero(true)
  {
  }

  /** Bit for bit, nearbyint(-x) is -nearbyint(x) exactly when x is not a zero. */
  lemma OddIffNonzero(x: Double, r: Double, s: Double, one: nat)
    requires one > 0 && IsRoundedInteger(r, x, one) && IsRoundedInteger(s, Negate(x), one)
    ensures s == Negate(r) <==> !IsZero(x)
  {
    SameUnits(s, Negate(r));
  }

  /** Rounding twice changes nothing but the sign of a zero: bit for bit it is idempotent except
      where a negative nonzero x was rounded to the negative zero. */
  lemma IdempotentUnlessNegativeZero(x: Double, r: Double, s: Double, one: nat)
    requires one > 0 && IsRoundedInteger(r, x, one) && IsRoundedInteger(s, r, one)
    ensures Units(s) == Units(r)
    ensures s == r <==> !(x.neg && 0 < Units(x) && 2 * Units(x) <= one)
  {
    var n := HalfEven(Units(x), one);
    DivModUnique(Units(r), one, n, 0);
    SameUnits(s, r);
    RoundsToZero(Units(x), one);
    if n > 0 { MulLt(0, n, one); }
    UnitsOfZero(r);
    UnitsOfZero(x);
  }

  lemma UnitsOfZero(x: Double)
    ensures Units(x) == 0 <==> IsZero(x)
  {
    if x.exp > 0 { MulLt(0, TWO52 + x.frac, Pow2(x.exp - 1)); }
  }

  lemma RoundsToZero(a: nat, d: nat)
    requires d > 0
    ensures HalfEven(a, d) == 0 <==> 2 * a <= d
  {
    var q, r := a / d, a % d;
    assert a == q * d + r;
    if q > 0 { MulLe(1, q, d); }
  }
}
