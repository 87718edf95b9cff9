/**
 IEEE 754 doubles as 64-bit patterns: the comparisons and conversions that the JSON value type uses.
 */
module Double {

  type Bits = n: int | 0 <= n < 0x1_0000_0000_0000_0000

  const SIGN := 0x8000_0000_0000_0000
  const INFINITY := 0x7FF0_0000_0000_0000
  const QUIET_NAN := 0x7FF8_0000_0000_0000

  /** The pattern without its sign bit. */
  function Magnitude(d: Bits): (n: int)
    ensures 0 <= n < SIGN
  {
    if d < SIGN then d else d - SIGN
  }

  function Negate(d: Bits): Bits {
    if d < SIGN then d + SIGN else d - SIGN
  }

  predicate IsNaN(d: Bits) {
    Magnitude(d) > INFINITY
  }

  predicate IsFinite(d: Bits) {
    Magnitude(d) < INFINITY
  }

  /** Sign-magnitude patterns are ordered like the numbers they stand for; both zeros map to 0. */
  function Key(d: Bits): int {
    if d < SIGN then d else -(d - SIGN)
  }

  /** `==` on doubles. */
  predicate Eq(a: Bits, b: Bits) {
    !IsNaN(a) && !IsNaN(b) && Key(a) == Key(b)
  }

  /** `<` on doubles. */
  predicate Less(a: Bits, b: Bits) {
    !IsNaN(a) && !IsNaN(b) && Key(a) < Key(b)
  }

  function Pow2(k: nat): (p: nat)
    ensures p > 0
  {
    if k == 0 then 1 else 2 * Pow2(k - 1)
  }

  /** Position of the highest set bit. */
  function Log2(n: nat): (k: nat)
    requires n > 0
    ensures Pow2(k) <= n < 2 * Pow2(k)
  {
    if n == 1 then 0 else 1 + Log2(n / 2)
  }

  lemma Pow2Monotone(a: nat, b: nat)
    requires a <= b
    ensures Pow2(a) <= Pow2(b)
    decreases b
  {
    if a < b {
      Pow2Monotone(a, b - 1);
    }
  }

  lemma Log2Below(n: nat, k: nat)
    requires 0 < n < Pow2(k)
    ensures Log2(n) < k
  {
    if k <= Log2(n) {
      Pow2Monotone(k, Log2(n));
    }
  }

  lemma {:induction false} Pow2Sum(a: nat, b: nat)
    ensures Pow2(a) * Pow2(b) == Pow2(a + b)
  {
    if a != 0 {
      Pow2Sum(a - 1, b);
    }
  }

  lemma Pow2Small()
    ensures Pow2(1) == 2 && Pow2(4) == 16
  {
  }

  lemma Pow2Values()
    ensures Pow2(52) == 0x10_0000_0000_0000
    ensures Pow2(53) == 0x20_0000_0000_0000
    ensures Pow2(64) == 0x1_0000_0000_0000_0000
  {
    Pow2Small();
    hide Pow2;
    Pow2Sum(4, 4);
    Pow2Sum(8, 8);
    Pow2Sum(16, 16);
    Pow2Sum(32, 16);
    Pow2Sum(48, 16);
    Pow2Sum(48, 4);
    Pow2Sum(52, 1);
  }

  /** The 53-bit significand of `m`, whose highest bit is set. */
  function Significand(m: nat): (s: nat)
    requires 0 < m < 0x20_0000_0000_0000
    ensures Log2(m) < 53
    ensures 0x10_0000_0000_0000 <= s < 0x20_0000_0000_0000
  {
    Pow2Values();
    Log2Below(m, 53);
    SignificandBounds(m);
    m * Pow2(52 - Log2(m))
  }

  lemma SignificandBounds(m: nat)
    requires 0 < m && Log2(m) < 53
    ensures Pow2(52) <= m * Pow2(52 - Log2(m)) < 2 * Pow2(52)
  {
    Pow2Sum(Log2(m), 52 - Log2(m));
    Between(Pow2(Log2(m)), m, Pow2(52 - Log2(m)));
  }

  lemma Between(p: nat, m: nat, c: nat)
    requires p <= m < 2 * p && c > 0
    ensures p * c <= m * c < 2 * (p * c)
  {
    var low, high := m - p, 2 * p - m;
    assert low * c >= 0 && high * c > 0;
    assert m * c == p * c + low * c;
    assert high * c == 2 * (p * c) - m * c;
  }

  /** The double of the exactly representable, normal number `m * 2^scale`. */
  function Scaled(m: nat, scale: int): Bits
    requires 0 < m < 0x20_0000_0000_0000
    requires -200 <= scale <= 250
  {
    var s := Significand(m);
    (Log2(m) + scale + 1023) * 0x10_0000_0000_0000 + s - 0x10_0000_0000_0000
  }

  lemma Scale(a: nat, b: nat, c: nat)
    requires a <= b
    ensures a * c <= b * c
  {
  }

  /** The pattern of a natural number. */
  function OfNatural(m: nat): (d: Bits)
    requires m < 0x1_0000_0000_0000_0000
  {
    if m == 0 then 0 else if m < 0x20_0000_0000_0000 then Scaled(m, 0) else Rounded(m)
  }

  /** `static_cast<double>` of a 64-bit integer: round to nearest, ties to even. */
  function OfInteger(x: int): Bits
    requires -0x8000_0000_0000_0000 <= x < 0x1_0000_0000_0000_0000
  {
    var m: nat := if x < 0 then -x else x;
    if x < 0 then Negate(OfNatural(m)) else OfNatural(m)
  }

  function Rounded(m: nat): Bits
    requires 0x20_0000_0000_0000 <= m < 0x1_0000_0000_0000_0000
  {
    RoundedBounds(m);
    var e := Log2(m);
    var unit := Pow2(e - 52);
    var q, r := m / unit, m % unit;
    var up := 2 * r > unit || (2 * r == unit && q % 2 == 1);
    (e + 1023) * 0x10_0000_0000_0000 + q + (if up then 1 else 0) - 0x10_0000_0000_0000
  }

  lemma RoundedBounds(m: nat)
    requires 0x20_0000_0000_0000 <= m < 0x1_0000_0000_0000_0000
    ensures 53 <= Log2(m) <= 63
    ensures 0x10_0000_0000_0000 <= m / Pow2(Log2(m) - 52) < 0x20_0000_0000_0000
  {
    var e := Log2(m);
    Pow2Values();
    Log2Below(m, 64);
    if e < 53 {
      Pow2Monotone(e, 52);
      assert false;
    }
    Pow2Sum(e - 52, 52);
    QuotientBounds(m, Pow2(e - 52), Pow2(52));
  }

  lemma QuotientBounds(m: nat, d: nat, lo: nat)
    requires d > 0 && d * lo <= m < 2 * (d * lo)
    ensures lo <= m / d < 2 * lo
  {
    var q := m / d;
    assert m == d * q + m % d;
    if q < lo {
      Scale(q + 1, lo, d);
      assert false;
    }
    if q >= 2 * lo {
      Scale(2 * lo, q, d);
      assert false;
    }
  }

  // ----- the conversion of integers keeps their order -----

  lemma OfNaturalBounds(m: nat)
    requires 0 < m < 0x1_0000_0000_0000_0000
    ensures Log2(m) <= 63
    ensures (Log2(m) + 1023) * 0x10_0000_0000_0000 <= OfNatural(m) <= (Log2(m) + 1024) * 0x10_0000_0000_0000
  {
    hide Log2, Pow2;
    Pow2Values();
    Log2Below(m, 64);
    if m >= 0x20_0000_0000_0000 {
      RoundedBounds(m);
    }
  }

  lemma Log2Monotone(m: nat, n: nat)
    requires 0 < m <= n
    ensures Log2(m) <= Log2(n)
  {
    Log2Below(m, Log2(n) + 1);
  }

  lemma QuotientMonotone(m: nat, n: nat, unit: nat)
    requires m <= n && unit > 0
    ensures m / unit < n / unit || (m / unit == n / unit && m % unit <= n % unit)
  {
    if n / unit < m / unit {
      Scale(n / unit + 1, m / unit, unit);
      assert false;
    }
  }

  lemma OfNaturalMonotone(m: nat, n: nat)
    requires m <= n < 0x1_0000_0000_0000_0000
    ensures OfNatural(m) <= OfNatural(n)
  {
    hide Log2, Pow2;
    if m > 0 {
      OfNaturalBounds(m);
      OfNaturalBounds(n);
      Log2Monotone(m, n);
      if Log2(m) == Log2(n) {
        SameExponentMonotone(m, n);
      }
    }
  }

  lemma SameExponentMonotone(m: nat, n: nat)
    requires 0 < m <= n < 0x1_0000_0000_0000_0000 && Log2(m) == Log2(n)
    ensures OfNatural(m) <= OfNatural(n)
  {
    hide Log2, Pow2;
    Pow2Values();
    if n < 0x20_0000_0000_0000 {
      Log2Below(n, 53);
      Scale(m, n, Pow2(52 - Log2(m)));
    } else if m < 0x20_0000_0000_0000 {
      Log2Below(m, 53);
      RoundedBounds(n);
      assert false;
    } else {
      RoundedBounds(m);
      QuotientMonotone(m, n, Pow2(Log2(m) - 52));
    }
  }

  /** No integer becomes a NaN or an infinity. */
  lemma OfIntegerFinite(x: int)
    requires -0x8000_0000_0000_0000 <= x < 0x1_0000_0000_0000_0000
    ensures IsFinite(OfInteger(x)) && !IsNaN(OfInteger(x))
  {
    hide Scaled, Rounded;
    if x != 0 {
      OfNaturalBounds(if x < 0 then -x else x);
    }
  }

  /** Rounding keeps the order, although different integers may become the same double. */
  lemma OfIntegerMonotone(x: int, y: int)
    requires -0x8000_0000_0000_0000 <= x <= y < 0x1_0000_0000_0000_0000
    ensures Key(OfInteger(x)) <= Key(OfInteger(y))
  {
    hide Scaled, Rounded;
    if x > 0 {
      OfNaturalBounds(x);
      OfNaturalBounds(y);
      OfNaturalMonotone(x, y);
    } else if y < 0 {
      OfNaturalBounds(-x);
      OfNaturalBounds(-y);
      OfNaturalMonotone(-y, -x);
    } else {
      if x < 0 {
        OfNaturalBounds(-x);
      }
      if y > 0 {
        OfNaturalBounds(y);
      }
    }
  }

  /** The value of a half-precision pattern, as the decoder of RFC 7049, appendix D computes it. */
  function OfHalf(half: int): Bits
    requires 0 <= half < 0x1_0000
  {
    var exp, mant := (half / 1024) % 32, half % 1024;
    var magnitude :=
      if exp == 0 then (if mant == 0 then 0 else Scaled(mant, -24))
      else if exp != 31 then Scaled(mant + 1024, exp - 25)
      else if mant == 0 then INFINITY else QUIET_NAN;
    if half >= 0x8000 then Negate(magnitude) else magnitude
  }

  /** Widening of a single-precision pattern. */
  function OfSingle(single: int): Bits
    requires 0 <= single < 0x1_0000_0000
  {
    var exp, mant := (single / 0x80_0000) % 256, single % 0x80_0000;
    var magnitude: Bits :=
      if exp == 0 then (if mant == 0 then 0 else Scaled(mant, -149))
      else if exp != 255 then Scaled(mant + 0x80_0000, exp - 150)
      else if mant == 0 then INFINITY else QUIET_NAN;
    if single >= 0x8000_0000 then Negate(magnitude) else magnitude
  }
}
