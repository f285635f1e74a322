/** Binomial coefficients and the exact Binomial(n, 1/2) distribution: the
    values behind the precomputed cdf tables. The probabilities C(n, k) / 2^n
    are defined by a halved Pascal rule, so that every step relating them is
    linear; one lemma ties them to the product C(n, k) * 0.5^n the table
    initialiser computes. */
module BinomialCoefficients {
  import opened Numeric

  /** C(n, k) by Pascal's rule; 0 for k > n. */
  function Binom(n: nat, k: nat): nat {
    if k == 0 then 1 else if n == 0 then 0 else Binom(n - 1, k - 1) + Binom(n - 1, k)
  }

  lemma {:induction false} BinomZeroPastN(n: nat, k: nat)
    requires k > n
    ensures Binom(n, k) == 0
  {
    if n > 0 {
      BinomZeroPastN(n - 1, k - 1);
      BinomZeroPastN(n - 1, k);
    }
  }

  lemma {:induction false} MulAdd(x: nat, a: nat, b: nat)
    ensures x * (a + b) == x * a + x * b
  {
  }

  lemma {:induction false} MulSucc(x: nat, a: nat)
    ensures (x + 1) * a == x * a + a
  {
  }

  /** Absorption: k C(n, k) = n C(n - 1, k - 1). */
  lemma {:induction false} BinomAbsorption(n: nat, k: nat)
    requires n >= 1 && k >= 1
    ensures k * Binom(n, k) == n * Binom(n - 1, k - 1)
  {
    if n == 1 {
      if k >= 2 {
        BinomZeroPastN(0, k - 1);
        BinomZeroPastN(0, k);
      }
    } else {
      var a := Binom(n - 1, k - 1);
      var b := Binom(n - 1, k);
      assert Binom(n, k) == a + b;
      MulAdd(k, a, b);
      BinomAbsorption(n - 1, k);
      if k == 1 {
        assert Binom(n - 2, 0) == 1;
      } else {
        var c1 := Binom(n - 2, k - 2);
        var c2 := Binom(n - 2, k - 1);
        BinomAbsorption(n - 1, k - 1);
        assert a == c1 + c2;
        MulSucc(k - 1, a);
        MulAdd(n - 1, c1, c2);
        MulSucc(n - 1, a);
      }
    }
  }

  lemma {:induction false} MulSub(x: nat, y: nat, z: nat)
    requires y <= x
    ensures (x - y) * z == x * z - y * z
  {
  }

  /** The ratio the table loop multiplies by: (k + 1) C(n, k + 1) = (n - k) C(n, k). */
  lemma {:induction false} BinomStep(n: nat, k: nat)
    requires k < n
    ensures (k + 1) * Binom(n, k + 1) == (n - k) * Binom(n, k)
  {
    BinomAbsorption(n, k + 1);
    var b := Binom(n - 1, k);
    assert (k + 1) * Binom(n, k + 1) == n * b;
    if k >= 1 {
      BinomAbsorption(n, k);
      var a := Binom(n - 1, k - 1);
      var c := Binom(n, k);
      assert c == a + b;
      assert k * c == n * a;
      MulAdd(n, a, b);
      MulSub(n, k, c);
      assert (n - k) * c == n * a + n * b - n * a;
    }
  }

  /** `0.5f64.powi(n)`, exactly: n halvings of 1. */
  function HalfPow(n: nat): (s: real)
    ensures 0.0 < s <= 1.0
  {
    if n == 0 then 1.0 else 0.5 * HalfPow(n - 1)
  }

  /** C(n, k) / 2^n, the Binomial(n, 1/2) mass at k: the mass at 0 is 0.5^n,
      and otherwise each mass is half the sum of the two above it. */
  function HalfBinom(n: nat, k: nat): (q: real)
    ensures 0.0 <= q
  {
    if k == 0 then HalfPow(n)
    else if n == 0 then 0.0
    else 0.5 * (HalfBinom(n - 1, k - 1) + HalfBinom(n - 1, k))
  }

  lemma {:induction false} HalfBinomZeroPastN(n: nat, k: nat)
    requires k > n
    ensures HalfBinom(n, k) == 0.0
  {
    if n > 0 {
      HalfBinomZeroPastN(n - 1, k - 1);
      HalfBinomZeroPastN(n - 1, k);
    }
  }

  lemma {:induction false} BinomPascal(n: nat, k: nat)
    requires n > 0 && k > 0
    ensures Binom(n, k) == Binom(n - 1, k - 1) + Binom(n - 1, k)
  {
  }

  lemma {:induction false} HalfPowStep(n: nat)
    requires n > 0
    ensures HalfPow(n) == 0.5 * HalfPow(n - 1)
  {
  }

  lemma {:induction false} HalfBinomPascal(n: nat, k: nat)
    requires n > 0 && k > 0
    ensures HalfBinom(n, k) == 0.5 * (HalfBinom(n - 1, k - 1) + HalfBinom(n - 1, k))
  {
  }

  /** c h as c repeated additions of h, so that scaling stays linear. */
  function Scale(c: nat, h: real): real {
    if c == 0 then 0.0 else Scale(c - 1, h) + h
  }

  lemma {:induction false} ScaleAdd(a: nat, b: nat, h: real)
    ensures Scale(a + b, h) == Scale(a, h) + Scale(b, h)
    decreases b
  {
    if b > 0 {
      ScaleAdd(a, b - 1, h);
    }
  }

  lemma {:induction false} ScaleHalf(c: nat, h: real)
    ensures Scale(c, 0.5 * h) == 0.5 * Scale(c, h)
  {
    if c > 0 {
      ScaleHalf(c - 1, h);
    }
  }

  lemma {:induction false} MulSuccReal(x: real, h: real, s: real)
    requires s == (x - 1.0) * h
    ensures s + h == x * h
  {
  }

  lemma {:induction false} ScaleIsProduct(c: nat, h: real)
    ensures Scale(c, h) == c as real * h
  {
    if c > 0 {
      ScaleIsProduct(c - 1, h);
      MulSuccReal(c as real, h, Scale(c - 1, h));
    }
  }

  lemma {:induction false} HalfBinomIsScale(n: nat, k: nat)
    ensures HalfBinom(n, k) == Scale(Binom(n, k), HalfPow(n))
  {
    if k > 0 && n > 0 {
      HalfBinomIsScale(n - 1, k - 1);
      HalfBinomIsScale(n - 1, k);
      BinomPascal(n, k);
      HalfPowStep(n);
      HalfBinomPascal(n, k);
      ScaleAdd(Binom(n - 1, k - 1), Binom(n - 1, k), HalfPow(n - 1));
      ScaleHalf(Binom(n, k), HalfPow(n - 1));
    } else if k > 0 {
      assert Binom(n, k) == 0;
    } else {
      assert Scale(1, HalfPow(n)) == HalfPow(n);
    }
  }

  /** The mass is the binomial coefficient scaled by 0.5^n. */
  lemma {:induction false} HalfBinomIsScaled(n: nat, k: nat)
    ensures HalfBinom(n, k) == Binom(n, k) as real * HalfPow(n)
  {
    HalfBinomIsScale(n, k);
    ScaleIsProduct(Binom(n, k), HalfPow(n));
  }

  /** (C(n, 0) + ... + C(n, k)) / 2^n, the Binomial(n, 1/2) cdf at k. */
  function HalfPrefix(n: nat, k: nat): real {
    (if k == 0 then 0.0 else HalfPrefix(n, k - 1)) + HalfBinom(n, k)
  }

  /** The cdf of row n is half the sum of the cdfs of row n - 1 at k and k - 1. */
  lemma {:induction false} HalfPrefixPascal(n: nat, k: nat)
    requires n >= 1
    ensures HalfPrefix(n, k) == 0.5 * (HalfPrefix(n - 1, k) + (if k == 0 then 0.0 else HalfPrefix(n - 1, k - 1)))
  {
    if k > 0 {
      HalfPrefixPascal(n, k - 1);
    }
  }

  /** Each row's masses sum to 1. */
  lemma {:induction false} HalfPrefixFull(n: nat)
    ensures HalfPrefix(n, n) == 1.0
  {
    if n > 0 {
      HalfPrefixFull(n - 1);
      HalfPrefixPascal(n, n);
      HalfBinomZeroPastN(n - 1, n);
    }
  }

  /** The cdf does not decrease along a row. */
  lemma {:induction false} HalfPrefixMonotone(n: nat, j: nat, k: nat)
    requires j <= k
    ensures HalfPrefix(n, j) <= HalfPrefix(n, k)
    decreases k
  {
    if j < k {
      HalfPrefixMonotone(n, j, k - 1);
    }
  }
}
