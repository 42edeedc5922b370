/** `RoundMag` against an independent definition of round-to-nearest, ties-to-even. */
module Rounding {
  import opened Powers
  import opened Binary64

  /** Distance between the grid point `i` and a/2^k, in units of 2^-k. */
  function Dist(i: nat, a: nat, k: nat): (r: nat)
  {
    Abs(Value(i) * Pow2(k) - a)
  }

  /** Section 4.3.1 of IEEE 754-2019: no grid point up to infinity is nearer to a/2^k than `i`,
      and if another one is equally near then `i` has the even fraction. */
  ghost predicate IsNearestEven(i: nat, a: nat, k: nat)
  {
    i <= INF && forall j: nat :: j <= INF ==> Beats(i, j, a, k)
  }

  ghost predicate Beats(i: nat, j: nat, a: nat, k: nat)
  {
    && Dist(i, a, k) <= Dist(j, a, k)
    && (Dist(i, a, k) == Dist(j, a, k) && i != j ==> i % 2 == 0)
  }

  // ---- The grid ----

  lemma {:induction false} ValueMono(i: nat, j: nat)
    requires i < j
    ensures Value(i) < Value(j)
  {
    if j >= TWO53 {
      if i >= TWO53 {
        ValueMono(i - TWO52, j - TWO52);
      } else {
        ValueAtLeast(j);
      }
    }
  }

  lemma {:induction false} ValueAtLeast(j: nat)
    requires j >= TWO53
    ensures Value(j) >= TWO53
  {
    if j - TWO52 >= TWO53 {
      ValueAtLeast(j - TWO52);
    }
  }

  /** The recursive grid is the IEEE one. */
  lemma {:induction false} ValueOfFields(exp: nat, frac: nat)
    requires frac < TWO52
    ensures exp == 0 ==> Value(frac) == frac
    ensures exp > 0 ==> Value(exp * TWO52 + frac) == (TWO52 + frac) * Pow2(exp - 1)
  {
    if exp > 1 {
      ValueOfFields(exp - 1, frac);
      assert exp * TWO52 + frac - TWO52 == (exp - 1) * TWO52 + frac;
      assert exp * TWO52 + frac >= TWO53;
      assert Pow2(exp - 1) == 2 * Pow2(exp - 2);
      MulAssoc(TWO52 + frac, 2, Pow2(exp - 2));
    }
  }

  lemma UnitsIsValue(d: Double)
    ensures Units(d) == Value(Mag(d))
  {
    ValueOfFields(d.exp, d.frac);
  }

  // ---- Rounding to an integer ----

  lemma HalfEvenNearest(a: nat, d: nat, j: nat)
    requires d > 0
    ensures Abs(HalfEven(a, d) * d - a) <= Abs(j * d - a)
    ensures Abs(HalfEven(a, d) * d - a) == Abs(j * d - a) && HalfEven(a, d) != j ==> HalfEven(a, d) % 2 == 0
  {
    var q, r := a / d, a % d;
    assert a == q * d + r;
    assert (q + 1) * d == q * d + d;
    if j <= q {
      MulLe(j, q, d);
      if j < q { MulLe(j + 1, q, d); assert (j + 1) * d == j * d + d; }
    } else {
      MulLe(q + 1, j, d);
      if q + 1 < j { MulLe(q + 2, j, d); assert (q + 2) * d == q * d + d + d; }
    }
  }

  lemma HalfEvenBounds(a: nat, d: nat, lo: nat, hi: nat)
    requires d > 0 && lo * d <= a <= hi * d
    ensures lo <= HalfEven(a, d) <= hi
  {
    var q, r := a / d, a % d;
    assert a == q * d + r;
    assert (q + 1) * d == q * d + d;
    if q < lo { MulLe(q + 1, lo, d); }
    if hi < q { MulLt(hi, q, d); }
    if hi == q { assert r == 0; }
  }

  lemma HalfEvenMono(a: nat, b: nat, d: nat)
    requires d > 0 && a <= b
    ensures HalfEven(a, d) <= HalfEven(b, d)
  {
    var q, r := a / d, a % d;
    var q', r' := b / d, b % d;
    assert a == q * d + r && b == q' * d + r';
    assert (q' + 1) * d == q' * d + d;
    if q' < q { MulLe(q' + 1, q, d); }
  }

  lemma HalfEvenScale(a: nat, d: nat, c: nat)
    requires d > 0 && c > 0
    ensures d * c > 0
    ensures HalfEven(a * c, d * c) == HalfEven(a, d)
  {
    var q, r := a / d, a % d;
    assert a == q * d + r;
    assert a * c == q * (d * c) + r * c;
    MulLt(0, d, c);
    MulLt(r, d, c);
    DivModUnique(a * c, d * c, q, r * c);
    if 2 * r < d { MulLt(2 * r, d, c); }
    if 2 * r > d { MulLt(d, 2 * r, c); }
    assert 2 * r * c == 2 * (r * c);
  }

  // ---- Rounding to the grid ----

  /** From 2^52 units upward the result is a normal magnitude. */
  lemma {:induction false} RoundMagAtLeast(a: nat, k: nat)
    requires a >= TWO52 * Pow2(k)
    ensures RoundMag(a, k) >= TWO52
  {
    if a < TWO53 * Pow2(k) {
      HalfEvenBounds(a, Pow2(k), TWO52, TWO53);
    }
  }

  /** One binade further up all distances are the same with half the scale. */
  lemma BeatsAbove(i: nat, j: nat, a: nat, k: nat)
    requires i >= TWO52 && j >= TWO52 && Beats(i, j, a, k + 1)
    ensures Beats(i + TWO52, j + TWO52, a, k)
  {
    DistHalves(i, a, k);
    DistHalves(j, a, k);
    assert (i + TWO52) % 2 == i % 2;
  }

  /** A point below the binade is further away than its first one. */
  lemma FurtherBelow(j: nat, a: nat, k: nat)
    requires j < TWO53 && a >= TWO53 * Pow2(k)
    ensures Dist(TWO53, a, k) < Dist(j, a, k)
  {
    assert Value(TWO53) == TWO53 && Value(j) == j;
    MulLt(j, TWO53, Pow2(k));
  }

  lemma BeatsBelow(i: nat, j: nat, a: nat, k: nat)
    requires Beats(i, TWO53, a, k) && j < TWO53 && a >= TWO53 * Pow2(k)
    ensures Beats(i, j, a, k)
  {
    FurtherBelow(j, a, k);
  }

  /** No point of the unbounded grid is nearer, and ties go to the even one. */
  lemma {:induction false} RoundMagNearest(a: nat, k: nat, j: nat)
    ensures Beats(RoundMag(a, k), j, a, k)
    decreases a - k
  {
    if a < TWO53 * Pow2(k) {
      LowestBinadeNearest(a, k, j);
    } else {
      Pow2Exceeds(k);
      RoundMagAtLeast(a, k + 1);
      var i := RoundMag(a, k + 1);
      var h := if j >= TWO53 then j - TWO52 else TWO52;
      RoundMagNearest(a, k + 1, h);
      BeatsAbove(i, h, a, k);
      if j < TWO53 {
        BeatsBelow(i + TWO52, j, a, k);
      }
    }
  }

  lemma LowestBinadeNearest(a: nat, k: nat, j: nat)
    requires a < TWO53 * Pow2(k)
    ensures Beats(HalfEven(a, Pow2(k)), j, a, k)
  {
    var p := Pow2(k);
    HalfEvenBounds(a, p, 0, TWO53);
    if j <= TWO53 {
      HalfEvenNearest(a, p, j);
    } else {
      HalfEvenNearest(a, p, TWO53);
      ValueMono(TWO53, j);
      MulLt(TWO53, Value(j), p);
    }
  }

  lemma DistHalves(i: nat, a: nat, k: nat)
    requires i >= TWO52
    ensures Dist(i + TWO52, a, k) == Dist(i, a, k + 1)
  {
    MulAssoc(Value(i), 2, Pow2(k));
  }

  /** Rounding with overflow to infinity is the rounding of section 4.3.1. */
  lemma RoundUnitsNearest(a: nat, k: nat)
    ensures IsNearestEven(RoundUnits(a, k), a, k)
  {
    var r := RoundUnits(a, k);
    forall j: nat | j <= INF
      ensures Beats(r, j, a, k)
    {
      RoundMagNearest(a, k, j);
      var i := RoundMag(a, k);
      if i > INF && j < INF {
        RoundMagNearest(a, k, INF);
        ValueMono(INF, i);
        ValueMono(j, INF);
        MulLt(Value(INF), Value(i), Pow2(k));
        MulLt(Value(j), Value(INF), Pow2(k));
      }
    }
  }

  /** The definition leaves no choice. */
  lemma NearestEvenUnique(i: nat, j: nat, a: nat, k: nat)
    requires IsNearestEven(i, a, k) && IsNearestEven(j, a, k)
    ensures i == j
  {
    assert Beats(i, j, a, k) && Beats(j, i, a, k);
    if i < j {
      assert Beats(i, i + 1, a, k);
      OddBetween(i, j, a, k);
    } else if j < i {
      assert Beats(j, j + 1, a, k);
      OddBetween(j, i, a, k);
    }
  }

  /** Between two equally near even points lies an odd one that is nearer. */
  lemma OddBetween(i: nat, j: nat, a: nat, k: nat)
    requires i + 1 < j && Dist(i, a, k) == Dist(j, a, k)
    ensures Dist(i + 1, a, k) < Dist(i, a, k)
  {
    ValueMono(i, i + 1);
    ValueMono(i + 1, j);
    MulLt(Value(i), Value(i + 1), Pow2(k));
    MulLt(Value(i + 1), Value(j), Pow2(k));
  }

  /** The overflow threshold of section 4.3.1: halfway between the largest finite double and
      the next grid point, 2^1024. */
  lemma OverflowThreshold(a: nat, k: nat)
    ensures RoundUnits(a, k) == INF <==> 2 * a >= (Value(INF - 1) + Value(INF)) * Pow2(k)
  {
    RoundUnitsNearest(a, k);
    Halfway(RoundUnits(a, k), INF, a, k);
  }

  lemma Halfway(r: nat, top: nat, a: nat, k: nat)
    requires 0 < top && r <= top && top % 2 == 0
    requires Beats(r, top, a, k) && Beats(r, top - 1, a, k)
    ensures r == top <==> 2 * a >= (Value(top - 1) + Value(top)) * Pow2(k)
  {
    var p := Pow2(k);
    ValueMono(top - 1, top);
    MulLt(Value(top - 1), Value(top), p);
    MulDistributes(Value(top - 1), Value(top), p);
    var lo, hi := Value(top - 1) * p, Value(top) * p;
    assert 2 * a >= lo + hi <==> Abs(hi - a) <= Abs(lo - a);
    if r < top - 1 {
      ValueMono(r, top - 1);
      MulLt(Value(r), Value(top - 1), p);
      FarBelow(Value(r) * p, lo, hi, a);
    }
  }

  lemma MulDistributes(a: int, b: int, c: int)
    ensures (a + b) * c == a * c + b * c
  {
  }

  lemma FarBelow(x: int, lo: int, hi: int, a: int)
    requires x < lo < hi && Abs(x - a) <= Abs(lo - a)
    ensures Abs(lo - a) < Abs(hi - a)
  {
  }

  // ---- How rounding behaves ----

  lemma {:induction false} RoundMagMono(a: nat, b: nat, k: nat)
    requires a <= b
    ensures RoundMag(a, k) <= RoundMag(b, k)
    decreases b - k
  {
    var p := Pow2(k);
    if b < TWO53 * p {
      HalfEvenMono(a, b, p);
    } else {
      Pow2Exceeds(k);
      if a < TWO53 * p {
        HalfEvenBounds(a, p, 0, TWO53);
        RoundMagAtLeast(b, k + 1);
      } else {
        RoundMagMono(a, b, k + 1);
      }
    }
  }

  /** Only the value matters, not how it is written as a fraction. */
  lemma {:induction false} RoundMagScale(a: nat, k: nat, c: nat)
    ensures RoundMag(a * Pow2(c), k + c) == RoundMag(a, k)
    decreases a - k
  {
    Pow2Add(k, c);
    MulAssoc(TWO53, Pow2(k), Pow2(c));
    if a < TWO53 * Pow2(k) {
      MulLt(a, TWO53 * Pow2(k), Pow2(c));
      HalfEvenScale(a, Pow2(k), Pow2(c));
    } else {
      MulLe(TWO53 * Pow2(k), a, Pow2(c));
      Pow2Exceeds(k);
      RoundMagScale(a, k + 1, c);
      assert k + 1 + c == k + c + 1;
    }
  }

  /** Grid points round to themselves. */
  lemma {:induction false} RoundMagExact(i: nat, k: nat)
    ensures RoundMag(Value(i) * Pow2(k), k) == i
    decreases i
  {
    var p := Pow2(k);
    if i < TWO53 {
      MulLt(i, TWO53, p);
      DivModUnique(i * p, p, i, 0);
    } else {
      MulAssoc(Value(i - TWO52), 2, p);
      RoundMagExact(i - TWO52, k + 1);
      ValueAtLeast(i);
      MulLe(TWO53, Value(i), p);
    }
  }

  /** The grid is closed under doubling. */
  lemma {:induction false} ValueDoubles(i: nat, c: nat) returns (j: nat)
    ensures Value(j) == Value(i) * Pow2(c)
    decreases c
  {
    if c == 0 {
      j := i;
    } else {
      j := ValueDoubles(if i < TWO52 then 2 * i else i + TWO52, c - 1);
      MulAssoc(Value(i), 2, Pow2(c - 1));
    }
  }
}
