/** Powers of two and the small facts about them that the binary64 model needs. */
module Powers {

  function Pow2(n: nat): (p: nat)
    ensures p >= 1
  {
    if n == 0 then 1 else 2 * Pow2(n - 1)
  }

  lemma {:induction false} Pow2Add(a: nat, b: nat)
    ensures Pow2(a + b) == Pow2(a) * Pow2(b)
  {
    if a != 0 {
      Pow2Add(a - 1, b);
      assert Pow2(a + b) == 2 * Pow2(a - 1 + b);
      MulAssoc(2, Pow2(a - 1), Pow2(b));
    }
  }

  lemma {:induction false} Pow2Mono(a: nat, b: nat)
    requires a <= b
    ensures Pow2(a) <= Pow2(b)
  {
    if a != b {
      Pow2Mono(a, b - 1);
    }
  }

  /** Every power of two exceeds its exponent; this bounds the recursion of `RoundMag`. */
  lemma {:induction false} Pow2Exceeds(n: nat)
    ensures n < Pow2(n)
  {
    if n != 0 {
      Pow2Exceeds(n - 1);
    }
  }

  /** The powers that appear as literals in the source. */
  lemma Pow2Literals()
    ensures Pow2(52) == 0x10_0000_0000_0000
    ensures Pow2(53) == 0x20_0000_0000_0000
    ensures Pow2(54) == 0x40_0000_0000_0000
  {
    assert Pow2(13) == 0x2000;
    Pow2Add(13, 13);
    Pow2Add(26, 26);
    assert Pow2(53) == 2 * Pow2(52);
    assert Pow2(54) == 2 * Pow2(53);
  }

  /** The position of the leading one of a positive integer. */
  function Log2(m: nat): (p: nat)
    requires m > 0
    ensures Pow2(p) <= m < 2 * Pow2(p)
  {
    if m == 1 then 0 else 1 + Log2(m / 2)
  }

  lemma Log2Below(m: nat, k: nat)
    requires 0 < m < Pow2(k)
    ensures Log2(m) < k
  {
    if Log2(m) >= k {
      Pow2Mono(k, Log2(m));
    }
  }

  lemma MulAssoc(a: int, b: int, c: int)
    ensures a * b * c == a * (b * c)
  {
  }

  lemma MulLe(a: int, b: int, c: nat)
    requires a <= b
    ensures a * c <= b * c
  {
  }

  lemma MulLt(a: int, b: int, c: nat)
    requires a < b && c > 0
    ensures a * c < b * c
  {
  }

  lemma MulCancel(a: int, b: int, c: nat)
    requires c > 0 && a * c == b * c
    ensures a == b
  {
    if a < b { MulLt(a, b, c); }
    if b < a { MulLt(b, a, c); }
  }

  /** Quotient and remainder are determined by the division identity. */
  lemma DivModUnique(a: nat, d: nat, q: nat, r: nat)
    requires 0 < d && a == q * d + r && r < d
    ensures a / d == q && a % d == r
  {
    var q', r' := a / d, a % d;
    assert a == q' * d + r';
    assert (q' + 1) * d == q' * d + d;
    assert (q + 1) * d == q * d + d;
    if q' < q {
      MulLe(q' + 1, q, d);
    }
    if q < q' {
      MulLe(q + 1, q', d);
    }
  }

  function Min(a: nat, b: nat): (m: nat)
  {
    if a <= b then a else b
  }
}
