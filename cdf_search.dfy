/** The constant-time inverse-CDF search that the three binomial samplers
    share: a loop of a fixed, public number of iterations that accumulates the
    cdf of Binomial(n, p) over k <= n and latches the first k with u <= cdf(k).
    The log-space pmf recurrence is floating-point and is not modelled: the
    probability mass it yields at k is an abstract function of (p, n, k). */
module CdfSearch {
  import opened Numeric
  import opened ConstantTime

  /** pmf(p, n, k): the mass `exp(log_pmf)` that the recurrence reaches at k
      for Binomial(n, p). */
  type Pmf = (real, nat, nat) -> real

  /** The uniform in (0, 1) the samplers derive from a 64-bit PRF output,
      `(prf + 0.5) / 2^64`, computed exactly. */
  function Uniform(prfOutput: nat): (u: real)
    ensures 0.0 < u
    ensures IsU64(prfOutput) ==> u < 1.0
  {
    (prfOutput as real + 0.5) / TWO_POW_64 as real
  }

  /** The pmf of Binomial(n, p) has no negative mass. */
  ghost predicate NonNegativePmf(pmf: Pmf, p: real, n: nat) {
    forall i: nat :: pmf(p, n, i) >= 0.0
  }

  /** The running cdf after the iteration for k: the masses at 0 .. min(k, n).
      Iterations past n add nothing. */
  function Cdf(pmf: Pmf, p: real, n: nat, k: nat): (c: real)
    ensures NonNegativePmf(pmf, p, n) ==> 0.0 <= c
  {
    (if k == 0 then 0.0 else Cdf(pmf, p, n, k - 1)) + (if k <= n then pmf(p, n, k) else 0.0)
  }

  /** The first k in [from, n] whose cdf reaches u, or n if none before n does. */
  function SearchFrom(pmf: Pmf, p: real, n: nat, u: real, from: nat): (k: nat)
    requires from <= n
    ensures from <= k <= n
    ensures k == n || u <= Cdf(pmf, p, n, k)
    ensures forall j: nat :: from <= j < k ==> Cdf(pmf, p, n, j) < u
    decreases n - from
  {
    if from == n || u <= Cdf(pmf, p, n, from) then from else SearchFrom(pmf, p, n, u, from + 1)
  }

  /** The inverse cdf the latch loop computes: the smallest k <= n with
      u <= cdf(k), and n when no k < n qualifies. */
  function InverseCdf(pmf: Pmf, p: real, n: nat, u: real): (k: nat)
    ensures k <= n
    ensures k == n || u <= Cdf(pmf, p, n, k)
    ensures forall j: nat :: j < k ==> Cdf(pmf, p, n, j) < u
  {
    SearchFrom(pmf, p, n, u, 0)
  }

  /** The three properties above pin the inverse cdf down. */
  lemma {:induction false} InverseCdfUnique(pmf: Pmf, p: real, n: nat, u: real, k: nat)
    requires k <= n
    requires k == n || u <= Cdf(pmf, p, n, k)
    requires forall j: nat :: j < k ==> Cdf(pmf, p, n, j) < u
    ensures k == InverseCdf(pmf, p, n, u)
  {
  }

  /** Past n the cdf stays frozen: the masked iterations change nothing. */
  lemma {:induction false} CdfFrozenPastN(pmf: Pmf, p: real, n: nat, k: nat)
    requires k >= n
    ensures Cdf(pmf, p, n, k) == Cdf(pmf, p, n, n)
    decreases k
  {
    if k > n {
      CdfFrozenPastN(pmf, p, n, k - 1);
    }
  }

  /** With a non-negative pmf the cdf never decreases. */
  lemma {:induction false} CdfMonotone(pmf: Pmf, p: real, n: nat, j: nat, k: nat)
    requires NonNegativePmf(pmf, p, n)
    requires j <= k
    ensures Cdf(pmf, p, n, j) <= Cdf(pmf, p, n, k)
    decreases k
  {
    if j < k {
      CdfMonotone(pmf, p, n, j, k - 1);
    }
  }

  /** With a non-negative pmf the search result is a threshold: below it the
      cdf is under u, from it up to n - 1 the cdf has reached u. */
  lemma {:induction false} InverseCdfThreshold(pmf: Pmf, p: real, n: nat, u: real, j: nat)
    requires NonNegativePmf(pmf, p, n)
    requires j < n
    ensures u <= Cdf(pmf, p, n, j) <==> InverseCdf(pmf, p, n, u) <= j
  {
    var k := InverseCdf(pmf, p, n, u);
    if k <= j {
      CdfMonotone(pmf, p, n, k, j);
    }
  }

  /** `inverse_cdf_ct(n, max_n, p, u)`: clamp n to max_n, then run exactly
      max_n + 1 iterations; an iteration with k <= n adds pmf(k) to the cdf and
      latches k the first time u <= cdf. If nothing latched, the result is n. */
  method InverseCdfCt(n: nat, maxN: nat, p: real, u: real, pmf: Pmf) returns (r: nat, ghost iterations: nat)
    ensures r == InverseCdf(pmf, p, Min(n, maxN), u)
    ensures r <= n && r <= maxN
    ensures iterations == maxN + 1
  {
    var bound := CtMin(n, maxN);
    var cdf := 0.0;
    var result: nat := 0;
    var found: Mask := 0;
    iterations := 0;
    for k := 0 to maxN + 1
      invariant iterations == k
      invariant cdf == if k == 0 then 0.0 else Cdf(pmf, p, bound, k - 1)
      invariant found == 0 ==> forall j: nat :: j < k && j <= bound ==> Cdf(pmf, p, bound, j) < u
      invariant found == 1 ==> result < k && result <= bound && u <= Cdf(pmf, p, bound, result)
      invariant found == 1 ==> forall j: nat :: j < result ==> Cdf(pmf, p, bound, j) < u
    {
      var kInRange := CtLe(k, bound);
      cdf := cdf + CtSelectReal(kInRange, pmf(p, bound, k), 0.0);
      var uLeCdf := CtRealLe(u, cdf);
      var isNewResult := MaskAnd(MaskAnd(uLeCdf, MaskNot(found)), kInRange);
      result := CtSelect(isNewResult, k, result);
      found := MaskOr(found, isNewResult);
      iterations := iterations + 1;
    }
    r := CtSelect(found, result, bound);
    InverseCdfUnique(pmf, p, bound, u, r);
  }
}
