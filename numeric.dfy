/** Integer helpers shared by the model: the width of Rust's u64, its
    release-build wrap-around, powers of two, and the ceiling of log2 that the
    code obtains through f64 `log2().ceil()`. */
module Numeric {

  const TWO_POW_64: nat := 0x1_0000_0000_0000_0000
  const U64_MAX: nat := TWO_POW_64 - 1

  /** A value that fits a Rust u64. */
  predicate IsU64(x: nat) {
    x < TWO_POW_64
  }

  /** `a + b` on u64 in a release build (overflow wraps). */
  function WrapAdd(a: nat, b: nat): nat {
    (a + b) % TWO_POW_64
  }

  /** Without overflow the wrapping sum is the sum. */
  lemma {:induction false} WrapAddNoOverflow(a: nat, b: nat)
    requires a + b < TWO_POW_64
    ensures WrapAdd(a, b) == a + b
  {
  }

  /** `a - b` on u64 in a release build (underflow wraps). */
  function WrapSub(a: nat, b: nat): nat {
    (a - b) % TWO_POW_64
  }

  /** `a * b` on u64 in a release build (overflow wraps). */
  function WrapMul(a: nat, b: nat): nat {
    (a * b) % TWO_POW_64
  }

  function Min(a: nat, b: nat): nat {
    if a <= b then a else b
  }

  function Pow2(e: nat): (r: nat)
    ensures r >= 1
  {
    if e == 0 then 1 else 2 * Pow2(e - 1)
  }

  /** `(m as f64).log2().ceil() as usize`, computed exactly: the least r with
      m <= 2^r (0 for m <= 1; for m == 0 the f64 result -inf saturates to 0). */
  function CeilLog2(m: nat): (r: nat)
    ensures m <= Pow2(r)
    ensures m >= 2 ==> r >= 1 && Pow2(r - 1) < m
    decreases m
  {
    if m <= 1 then 0 else 1 + CeilLog2((m + 1) / 2)
  }

  /** Comparing a quotient by a positive real with c compares the dividend with c times it. */
  lemma {:induction false} QuotientAbove(x: real, y: real, c: real)
    requires y > 0.0
    ensures x / y > c <==> x > c * y
  {
    var q := x / y;
    assert q * y == x;
    if q > c {
      assert (q - c) * y > 0.0;
    } else {
      assert (c - q) * y >= 0.0;
    }
  }

  lemma {:induction false} QuotientEq(x: real, y: real, c: real)
    requires y > 0.0
    ensures x / y == c <==> x == c * y
  {
    var q := x / y;
    assert q * y == x;
  }

  /** The range of the exact quotient a/b of two naturals. */
  lemma {:induction false} RatioRange(a: nat, b: nat)
    requires 0 < b
    ensures 0.0 <= a as real / b as real
    ensures a < b ==> a as real / b as real < 1.0
    ensures 0 < a ==> 0.0 < a as real / b as real
  {
    QuotientAbove(a as real, b as real, 0.0);
    QuotientEq(a as real, b as real, 0.0);
    QuotientAbove(a as real, b as real, 1.0);
    QuotientEq(a as real, b as real, 1.0);
  }

  /** a/b exceeds one half exactly when 2a exceeds b. */
  lemma {:induction false} RatioHalf(a: nat, b: nat)
    requires 0 < b
    ensures a as real / b as real > 0.5 <==> 2 * a > b
    ensures 2 * a == b ==> a as real / b as real == 0.5
  {
    QuotientAbove(a as real, b as real, 0.5);
    QuotientEq(a as real, b as real, 0.5);
  }

  /** (b - a)/b is the complement of a/b. */
  lemma {:induction false} RatioComplement(a: nat, b: nat)
    requires 0 < b && a <= b
    ensures (b - a) as real / b as real == 1.0 - a as real / b as real
  {
    var r := a as real / b as real;
    QuotientEq(a as real, b as real, r);
    assert (1.0 - r) * b as real == b as real - r * b as real;
    QuotientEq((b - a) as real, b as real, 1.0 - r);
  }

  /** The exact quotient a/b of two naturals, as the samplers' probability
      num/denom: its range, its comparison with one half, and its complement. */
  lemma {:induction false} RatioFacts(a: nat, b: nat)
    requires 0 < b
    ensures 0.0 <= a as real / b as real
    ensures a < b ==> a as real / b as real < 1.0
    ensures 0 < a ==> 0.0 < a as real / b as real
    ensures a as real / b as real > 0.5 <==> 2 * a > b
    ensures 2 * a == b ==> a as real / b as real == 0.5
    ensures a <= b ==> (b - a) as real / b as real == 1.0 - a as real / b as real
  {
    RatioRange(a, b);
    RatioHalf(a, b);
    if a <= b {
      RatioComplement(a, b);
    }
  }
}
