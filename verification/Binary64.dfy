/** The binary64 format of IEEE 754-2019, section 3.4, and the hardware operations that
    include/maths.h relies on.

    Every finite double is an integer multiple of 2^-1074, its "unit", so all values are integers
    here.  The non-negative doubles, from +0 up to infinity, are numbered in order by their
    "magnitude": the low 63 bits of the encoding.  Infinity takes its place at the end of that
    line as the grid point 2^1024, which is how section 4.3.1 lets rounding overflow to it. */
module Binary64 {
  import opened Powers

  const TWO52: nat := 0x10_0000_0000_0000
  const TWO53: nat := 0x20_0000_0000_0000
  const TWO63: nat := 0x8000_0000_0000_0000

  /** The magnitude of infinity: exponent field all ones, fraction zero. */
  const INF: nat := 0x7ff * TWO52

  datatype Fields = Fields(neg: bool, exp: nat, frac: nat)

  type Double = d: Fields | d.exp <= 0x7ff && d.frac < TWO52 witness Fields(false, 0, 0)

  /** The 64-bit pattern of a double, `sign | exp << 52 | frac`. */
  function Encode(d: Double): (u: nat)
    ensures u < 2 * TWO63
  {
    (if d.neg then TWO63 else 0) + d.exp * TWO52 + d.frac
  }

  /** The fields picked out by the masks and shifts of include/maths.h:376-381. */
  function Decode(u: nat): (d: Double)
    requires u < 2 * TWO63
  {
    Fields(u / TWO63 == 1, u / TWO52 % 0x800, u % TWO52)
  }

  lemma EncodeDecode(d: Double)
    ensures Decode(Encode(d)) == d
  {
    var u, m := Encode(d), d.exp * TWO52 + d.frac;
    assert m < TWO63 && u / TWO63 == if d.neg then 1 else 0;
    DivModUnique(u, TWO52, (if d.neg then 0x800 else 0) + d.exp, d.frac);
  }

  lemma DecodeEncode(u: nat)
    requires u < 2 * TWO63
    ensures Encode(Decode(u)) == u
  {
    assert u / TWO63 == u / TWO52 / 0x800;
  }

  function Mag(d: Double): (i: nat)
  {
    d.exp * TWO52 + d.frac
  }

  function FromMag(neg: bool, i: nat): (d: Double)
    requires i <= INF
    ensures Mag(d) == i && d.neg == neg
  {
    Fields(neg, i / TWO52, i % TWO52)
  }

  predicate IsNaN(d: Double) { d.exp == 0x7ff && d.frac != 0 }
  predicate IsInf(d: Double) { d.exp == 0x7ff && d.frac == 0 }
  predicate IsFinite(d: Double) { d.exp < 0x7ff }
  predicate IsZero(d: Double) { d.exp == 0 && d.frac == 0 }

  function Infinity(neg: bool): (r: Double) { Fields(neg, 0x7ff, 0) }
  function Zero(neg: bool): (r: Double) { Fields(neg, 0, 0) }
  function QuietNaN(): (r: Double) { Fields(false, 0x7ff, 0x8_0000_0000_0000) }
  function Negate(d: Double): (r: Double) { Fields(!d.neg, d.exp, d.frac) }

  /** The magnitude of a finite double in units of 2^-1074 (section 3.4, items c and d). */
  function Units(d: Double): (u: nat)
  {
    if d.exp == 0 then d.frac else (TWO52 + d.frac) * Pow2(d.exp - 1)
  }

  /** The value of the grid point with magnitude `i`; beyond `INF` the grid simply continues. */
  function Value(i: nat): (v: nat)
  {
    if i < TWO53 then i else 2 * Value(i - TWO52)
  }

  /** Round a/d to the nearest integer, ties to even. */
  function HalfEven(a: nat, d: nat): (q: nat)
    requires d > 0
  {
    var q, r := a / d, a % d;
    if 2 * r < d || (2 * r == d && q % 2 == 0) then q else q + 1
  }

  /** Round a/2^k units to the grid.  Below 2^53 units the grid points are the integers;
      above, halving the value moves a grid point down by one binade, 2^52 places. */
  function RoundMag(a: nat, k: nat): (i: nat)
    decreases a - k
  {
    if a < TWO53 * Pow2(k) then HalfEven(a, Pow2(k))
    else
      Pow2Exceeds(k);
      TWO52 + RoundMag(a, k + 1)
  }

  /** Round a/2^k units, overflowing to infinity. */
  function RoundUnits(a: nat, k: nat): (i: nat)
  {
    Min(RoundMag(a, k), INF)
  }

  function Abs(a: int): (r: nat)
  {
    if a < 0 then -a else a
  }

  /** Exact product, then one rounding (section 5.4.1). */
  function Mul(x: Double, y: Double): (z: Double)
  {
    var neg := x.neg != y.neg;
    if IsNaN(x) || IsNaN(y) || (IsInf(x) && IsZero(y)) || (IsZero(x) && IsInf(y)) then QuietNaN()
    else if IsInf(x) || IsInf(y) then Infinity(neg)
    else FromMag(neg, RoundUnits(Units(x) * Units(y), 1074))
  }

  /** A finite double as a signed number of units. */
  function Signed(d: Double): (r: int)
  {
    if d.neg then 0 - Units(d) else Units(d)
  }

  /** Exact sum, then one rounding; an exact zero is +0 unless both operands are negative
      (section 6.3). */
  function Add(x: Double, y: Double): (z: Double)
  {
    if IsNaN(x) || IsNaN(y) || (IsInf(x) && IsInf(y) && x.neg != y.neg) then QuietNaN()
    else if IsInf(x) then x
    else if IsInf(y) then y
    else
      var s := Signed(x) + Signed(y);
      FromMag(if s == 0 then x.neg && y.neg else s < 0, RoundUnits(Abs(s), 0))
  }

  function Sub(x: Double, y: Double): (z: Double)
  {
    Add(x, Negate(y))
  }

  /** Numerical order of non-NaN doubles: the two zeros compare equal (section 5.11). */
  predicate LessEq(x: Double, y: Double)
  {
    !IsNaN(x) && !IsNaN(y) && Key(x) <= Key(y)
  }

  function Key(x: Double): (r: int)
  {
    if x.neg then 0 - Mag(x) else Mag(x)
  }
}
