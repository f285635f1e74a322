/** `BinomialSamplerTee`: a Binomial(count, num/denom) sampler whose latch
    loop runs a fixed number of iterations, max_count + 1, set from public
    protocol parameters. The probability num/denom and the uniform u are exact
    reals here; p above one half is replaced by 1 - p and the draw mirrored. */
module BinomialTee {
  import opened Numeric
  import opened ConstantTime
  import opened CdfSearch

  /** `BinomialSamplerTee::new(max_count)` is this constructor. */
  datatype BinomialSamplerTee = BinomialSamplerTee(maxCount: nat)

  /** The probability the search runs with: num/denom, or its complement
      when num/denom exceeds one half. */
  function SearchProbability(num: nat, denom: nat): (p: real)
    requires 0 < num < denom
    ensures 0.0 < p <= 0.5
  {
    RatioFacts(num, denom);
    var q := num as real / denom as real;
    if q > 0.5 then 1.0 - q else q
  }

  /** The value `sample(count, num, denom, prf_output)` returns. */
  function SampleSpec(maxCount: nat, pmf: Pmf, count: nat, num: nat, denom: nat, prfOutput: nat): (r: nat)
    ensures r <= count
    ensures denom == 0 || num == 0 ==> r == 0
    ensures 0 < num && 0 < denom <= num ==> r == count
    ensures count == 0 ==> r == 0
  {
    if denom == 0 || num == 0 then 0
    else if num >= denom then count
    else if count == 0 then 0
    else
      var k := InverseCdf(pmf, SearchProbability(num, denom), Min(count, maxCount), Uniform(prfOutput));
      if num as real / denom as real > 0.5 then count - k else k
  }

  /** `inverse_cdf_ct(n, p, u)`: the shared latch loop with this sampler's
      bound as its fixed iteration count. */
  method InverseCdfCt(s: BinomialSamplerTee, n: nat, p: real, u: real, pmf: Pmf)
    returns (r: nat, ghost iterations: nat)
    ensures r == InverseCdf(pmf, p, Min(n, s.maxCount), u)
    ensures r <= n && r <= s.maxCount
    ensures iterations == s.maxCount + 1
  {
    r, iterations := CdfSearch.InverseCdfCt(n, s.maxCount, p, u, pmf);
  }

  /** `sample`: the public edge cases, the symmetry step, the latch loop and
      the masked answer for count == 0. The loop runs max_count + 1 times
      whenever it runs, whatever count is. */
  method Sample(s: BinomialSamplerTee, count: nat, num: nat, denom: nat, prfOutput: nat, pmf: Pmf)
    returns (r: nat, ghost iterations: nat)
    ensures r == SampleSpec(s.maxCount, pmf, count, num, denom, prfOutput)
    ensures 0 < num < denom ==> iterations == s.maxCount + 1
    ensures !(0 < num < denom) ==> iterations == 0
  {
    if denom == 0 || num == 0 {
      return 0, 0;
    }
    if num >= denom {
      return count, 0;
    }
    var p := num as real / denom as real;
    var u := Uniform(prfOutput);
    var useComplement := p > 0.5;
    if useComplement {
      p := 1.0 - p;
    }
    var countIsZero := CtEq(count, 0);
    var k;
    k, iterations := InverseCdfCt(s, count, p, u, pmf);
    var result := if useComplement then count - k else k;
    r := CtSelect(countIsZero, 0, result);
  }

  /** Iterations past count add nothing and cannot latch, so every bound at
      least count gives the same sample. */
  lemma {:induction false} SampleIgnoresBound(maxCount1: nat, maxCount2: nat, pmf: Pmf, count: nat, num: nat, denom: nat, prfOutput: nat)
    requires count <= maxCount1 && count <= maxCount2
    ensures SampleSpec(maxCount1, pmf, count, num, denom, prfOutput)
         == SampleSpec(maxCount2, pmf, count, num, denom, prfOutput)
  {
    assert Min(count, maxCount1) == Min(count, maxCount2);
  }

  /** For p > 1/2 the sample is count minus the sample for 1 - p. */
  lemma {:induction false} SampleComplement(maxCount: nat, pmf: Pmf, count: nat, num: nat, denom: nat, prfOutput: nat)
    requires 0 < num < denom && 2 * num > denom
    ensures SampleSpec(maxCount, pmf, count, num, denom, prfOutput)
         == count - SampleSpec(maxCount, pmf, count, denom - num, denom, prfOutput)
  {
    RatioFacts(num, denom);
    RatioFacts(denom - num, denom);
  }

  /** With a non-negative pmf and p <= 1/2, the sample is a threshold on the
      cdf: it is at most j exactly when u <= cdf(j), for j below the bound. */
  lemma {:induction false} SampleThreshold(maxCount: nat, pmf: Pmf, count: nat, num: nat, denom: nat, prfOutput: nat, j: nat)
    requires 0 < num < denom && 2 * num <= denom
    requires NonNegativePmf(pmf, num as real / denom as real, Min(count, maxCount))
    requires j < Min(count, maxCount)
    ensures SampleSpec(maxCount, pmf, count, num, denom, prfOutput) <= j
        <==> Uniform(prfOutput) <= Cdf(pmf, num as real / denom as real, Min(count, maxCount), j)
  {
    RatioFacts(num, denom);
    InverseCdfThreshold(pmf, num as real / denom as real, Min(count, maxCount), Uniform(prfOutput), j);
  }
}
