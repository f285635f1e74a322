/** `PrecomputedBinomialSamplerTee`: for p = 1/2 and at most 256 balls the
    inverse cdf is a fixed 257-step search over a precomputed table of
    Binomial(n, 1/2) cdfs; every other draw goes to a log-space latch loop with
    the fallback bound. The table is modelled with exact rationals:
    entry [n][k] is (C(n, 0) + ... + C(n, k)) / 2^n. */
module BinomialPrecomputed {
  import opened Numeric
  import opened ConstantTime
  import opened CdfSearch
  import opened BinomialCoefficients
  import BinomialTee

  /** `PRECOMPUTE_MAX_N` */
  const PRECOMPUTE_MAX_N: nat := 256
  /** Rows and columns of the table. */
  const TABLE_SIZE: nat := PRECOMPUTE_MAX_N + 1

  /** `PrecomputedBinomialSamplerTee::new(fallback_max_count)` is this
      constructor. */
  datatype PrecomputedBinomialSamplerTee = PrecomputedBinomialSamplerTee(fallbackMaxCount: nat)

  /** Entry [n][k] for k <= n, the Binomial(n, 1/2) cdf at k, lies in [0, 1]. */
  lemma {:induction false} RowValueBounds(n: nat, k: nat)
    requires k <= n
    ensures 0.0 <= HalfPrefix(n, k) <= 1.0
  {
    HalfPrefixMonotone(n, 0, k);
    HalfPrefixMonotone(n, k, n);
    HalfPrefixFull(n);
  }

  /** The exact value of table entry [n][k]: row 0 is 1 at k = 0 and 0
      elsewhere; a row n > 0 holds the cdf of Binomial(n, 1/2) up to k = n and
      1 past it. */
  function TableEntry(n: nat, k: nat): (c: real)
    ensures 0.0 <= c <= 1.0
  {
    if n == 0 then (if k == 0 then 1.0 else 0.0)
    else if k <= n then
      RowValueBounds(n, k);
      HalfPrefix(n, k)
    else 1.0
  }

  /** The exact mass of Binomial(n, 1/2) at k. */
  function ExactHalfPmf(p: real, n: nat, k: nat): (m: real)
    ensures 0.0 <= m
  {
    HalfBinom(n, k)
  }

  /** `CDF_TABLES` once built: 257 rows of 257 entries, each its exact value. */
  ghost predicate IsCdfTables(t: array2<real>)
    reads t
    ensures IsCdfTables(t) ==> forall n, k :: 0 <= n < t.Length0 && 0 <= k < t.Length1 ==> 0.0 <= t[n, k] <= 1.0
  {
    && t.Length0 == TABLE_SIZE && t.Length1 == TABLE_SIZE
    && forall n, k :: 0 <= n < TABLE_SIZE && 0 <= k < TABLE_SIZE ==> t[n, k] == TableEntry(n, k)
  }

  /** Equal products of naturals stay equal as products of reals. */
  lemma {:induction false} CastProducts(x1: nat, y1: nat, x2: nat, y2: nat)
    requires x1 * y1 == x2 * y2
    ensures x1 as real * y1 as real == x2 as real * y2 as real
  {
    assert (x1 * y1) as real == x1 as real * y1 as real;
    assert (x2 * y2) as real == x2 as real * y2 as real;
  }

  /** If d c = m b with d > 0, then b (m / d) = c. */
  lemma RatioStep(b: real, c: real, d: real, m: real)
    requires d > 0.0 && d * c == m * b
    ensures b * (m / d) == c
  {
    var q := m / d;
    assert q * d == m;
    assert (b * q) * d == b * (q * d);
    assert (b * q - c) * d == 0.0;
  }

  lemma {:induction false} BinomStepReal(n: nat, k: nat)
    requires k < n
    ensures (k + 1) as real * Binom(n, k + 1) as real == (n - k) as real * Binom(n, k) as real
  {
    BinomStep(n, k);
    CastProducts(k + 1, Binom(n, k + 1), n - k, Binom(n, k));
  }

  /** One step of the coefficient recurrence the table loop uses:
      C(n, k) (n - k) / (k + 1) = C(n, k + 1). */
  lemma {:induction false} CoefficientStep(n: nat, k: nat)
    requires k < n
    ensures Binom(n, k) as real * ((n - k) as real / (k + 1) as real) == Binom(n, k + 1) as real
  {
    var b := Binom(n, k) as real;
    var c := Binom(n, k + 1) as real;
    var d := (k + 1) as real;
    var m := (n - k) as real;
    BinomStepReal(n, k);
    RatioStep(b, c, d, m);
  }

  /** The cdf the table loop has accumulated before column k. */
  function RunningCdf(n: nat, k: nat): real {
    if k == 0 then 0.0 else HalfPrefix(n, k - 1)
  }

  /** One iteration of the table loop: adding pmf = C(n, k) 0.5^n to the
      running cdf gives entry [n][k]. */
  lemma {:induction false} RowStep(n: nat, k: nat, cdf: real, coeff: real, scale: real, pmf: real)
    requires 0 < n && k <= n
    requires cdf == RunningCdf(n, k) && coeff == Binom(n, k) as real && scale == HalfPow(n)
    requires pmf == coeff * scale
    ensures cdf + pmf == TableEntry(n, k) == RunningCdf(n, k + 1)
  {
    TableEntryWithin(n, k);
    HalfBinomIsScaled(n, k);
  }

  /** The coefficient update of the table loop: C(n, k) times the ratio
      (n - k) / (k + 1) is C(n, k + 1). */
  lemma {:induction false} CoefficientNext(n: nat, k: nat, coeff: real, ratio: real, next: real)
    requires k < n
    requires coeff == Binom(n, k) as real && ratio == (n - k) as real / (k + 1) as real && next == coeff * ratio
    ensures next == Binom(n, k + 1) as real
  {
    CoefficientStep(n, k);
  }

  /** Columns 0 .. n of row n > 0: the running sum of C(n, k) / 2^n, the
      coefficient updated by the ratio (n - k) / (k + 1). No other entry
      changes. */
  method FillRowCdf(t: array2<real>, n: nat)
    requires t.Length0 == TABLE_SIZE && t.Length1 == TABLE_SIZE && 0 < n < TABLE_SIZE
    modifies t
    ensures forall j :: 0 <= j <= n ==> t[n, j] == TableEntry(n, j)
    ensures forall i, j :: 0 <= i < TABLE_SIZE && 0 <= j < TABLE_SIZE && (i != n || j > n) ==> t[i, j] == old(t[i, j])
  {
    var scale := HalfPow(n);
    var cdf := 0.0;
    var binomCoeff := 1.0;
    for k := 0 to n + 1
      invariant cdf == RunningCdf(n, k)
      invariant k <= n ==> binomCoeff == Binom(n, k) as real
      invariant forall j :: 0 <= j < k ==> t[n, j] == TableEntry(n, j)
      invariant forall i, j :: 0 <= i < TABLE_SIZE && 0 <= j < TABLE_SIZE && (i != n || j >= k) ==> t[i, j] == old(t[i, j])
    {
      var pmf := binomCoeff * scale;
      var ratio := (n - k) as real / (k + 1) as real;
      var next := binomCoeff * ratio;
      RowStep(n, k, cdf, binomCoeff, scale, pmf);
      cdf := cdf + pmf;
      t[n, k] := cdf;
      if k < n {
        CoefficientNext(n, k, binomCoeff, ratio, next);
        binomCoeff := next;
      }
    }
  }

  /** Row n > 0 of the initialiser: its cdf up to column n, then 1 past n.
      No other row changes. */
  method FillRow(t: array2<real>, n: nat)
    requires t.Length0 == TABLE_SIZE && t.Length1 == TABLE_SIZE && 0 < n < TABLE_SIZE
    modifies t
    ensures forall j :: 0 <= j < TABLE_SIZE ==> t[n, j] == TableEntry(n, j)
    ensures forall i, j :: 0 <= i < TABLE_SIZE && i != n && 0 <= j < TABLE_SIZE ==> t[i, j] == old(t[i, j])
  {
    FillRowCdf(t, n);
    for k := n + 1 to TABLE_SIZE
      invariant forall j :: 0 <= j < k ==> t[n, j] == TableEntry(n, j)
      invariant forall i, j :: 0 <= i < TABLE_SIZE && i != n && 0 <= j < TABLE_SIZE ==> t[i, j] == old(t[i, j])
    {
      t[n, k] := 1.0;
    }
  }

  /** The initialiser of `CDF_TABLES`: row 0 gets 1 at k = 0 and stays 0
      elsewhere; every other row is filled by `FillRow`. */
  method BuildCdfTables() returns (t: array2<real>)
    ensures fresh(t)
    ensures IsCdfTables(t)
  {
    t := new real[TABLE_SIZE, TABLE_SIZE]((i, j) => 0.0);
    for n := 0 to TABLE_SIZE
      invariant forall i, j :: 0 <= i < n && 0 <= j < TABLE_SIZE ==> t[i, j] == TableEntry(i, j)
      invariant forall i, j :: n <= i < TABLE_SIZE && 0 <= j < TABLE_SIZE ==> t[i, j] == 0.0
    {
      if n == 0 {
        t[0, 0] := 1.0;
      } else {
        FillRow(t, n);
      }
    }
  }

  /** Row 0 is [1, 0, 0, ...]; a row n > 0 is 1 past column n. */
  lemma {:induction false} TableShape(n: nat, k: nat)
    ensures n == 0 ==> TableEntry(n, k) == (if k == 0 then 1.0 else 0.0)
    ensures 0 < n < k ==> TableEntry(n, k) == 1.0
  {
  }

  /** A row n > 0 starts above 0 and reaches exactly 1 at column n. */
  lemma {:induction false} TableRowEnds(n: nat)
    requires 0 < n
    ensures TableEntry(n, 0) > 0.0
    ensures TableEntry(n, n) == 1.0
  {
    HalfPrefixFull(n);
    assert HalfPrefix(n, 0) == HalfPow(n);
  }

  /** Up to column n, entry [n][k] of a row n > 0 is the Binomial(n, 1/2) cdf at k. */
  lemma {:induction false} TableEntryWithin(n: nat, k: nat)
    requires 0 < n && k <= n
    ensures TableEntry(n, k) == HalfPrefix(n, k)
  {
  }

  /** Each row n > 0 is non-decreasing. */
  lemma {:induction false} TableRowMonotone(n: nat, j: nat, k: nat)
    requires 0 < n && j <= k
    ensures TableEntry(n, j) <= TableEntry(n, k)
  {
    if k <= n {
      TableEntryWithin(n, j);
      TableEntryWithin(n, k);
      HalfPrefixMonotone(n, j, k);
    } else {
      assert TableEntry(n, k) == 1.0;
    }
  }

  /** The table agrees with the cdf the exact pmf accumulates. */
  lemma {:induction false} TableIsExactCdf(n: nat, k: nat)
    requires k <= n
    ensures Cdf(ExactHalfPmf, 0.5, n, k) == TableEntry(n, k)
  {
    if n > 0 {
      TableEntryWithin(n, k);
      if k > 0 {
        TableIsExactCdf(n, k - 1);
        TableEntryWithin(n, k - 1);
      }
    }
  }

  /** The search the table loop does: the first k <= min(n, 256) whose entry
      in row min(n, 256) reaches u, or n when none does. */
  function TableSearchFrom(n: nat, u: real, from: nat): (k: nat)
    requires from <= Min(n, PRECOMPUTE_MAX_N) + 1
    ensures (from <= k <= Min(n, PRECOMPUTE_MAX_N) && u <= TableEntry(Min(n, PRECOMPUTE_MAX_N), k)) || k == n
    ensures forall j: nat :: from <= j < k && j <= Min(n, PRECOMPUTE_MAX_N) ==> TableEntry(Min(n, PRECOMPUTE_MAX_N), j) < u
    decreases Min(n, PRECOMPUTE_MAX_N) + 1 - from
  {
    if from > Min(n, PRECOMPUTE_MAX_N) then n
    else if u <= TableEntry(Min(n, PRECOMPUTE_MAX_N), from) then from
    else TableSearchFrom(n, u, from + 1)
  }

  function TableInverseCdf(n: nat, u: real): (k: nat)
    ensures k <= n
    ensures (k <= Min(n, PRECOMPUTE_MAX_N) && u <= TableEntry(Min(n, PRECOMPUTE_MAX_N), k)) || k == n
    ensures forall j: nat :: j < k && j <= Min(n, PRECOMPUTE_MAX_N) ==> TableEntry(Min(n, PRECOMPUTE_MAX_N), j) < u
  {
    TableSearchFrom(n, u, 0)
  }

  /** The three properties above pin the table search down. */
  lemma {:induction false} TableInverseCdfUnique(n: nat, u: real, k: nat)
    requires k <= n
    requires (k <= Min(n, PRECOMPUTE_MAX_N) && u <= TableEntry(Min(n, PRECOMPUTE_MAX_N), k)) || k == n
    requires forall j: nat :: j < k && j <= Min(n, PRECOMPUTE_MAX_N) ==> TableEntry(Min(n, PRECOMPUTE_MAX_N), j) < u
    ensures k == TableInverseCdf(n, u)
  {
  }

  /** For n <= 256 the table search is the exact inverse cdf of
      Binomial(n, 1/2). */
  lemma {:induction false} TableMatchesExact(n: nat, u: real)
    requires n <= PRECOMPUTE_MAX_N
    ensures TableInverseCdf(n, u) == InverseCdf(ExactHalfPmf, 0.5, n, u)
  {
    var k := TableInverseCdf(n, u);
    forall j: nat | j <= n
      ensures Cdf(ExactHalfPmf, 0.5, n, j) == TableEntry(n, j)
    {
      TableIsExactCdf(n, j);
    }
    InverseCdfUnique(ExactHalfPmf, 0.5, n, u, k);
  }

  /** The loop of `inverse_cdf_precomputed_ct` over row nIdx = min(n, 256) as
      stored: 257 iterations, latching the first k <= n with u <= row[k];
      n if none latches. */
  method LatchRow(tables: array2<real>, nIdx: nat, n: nat, u: real) returns (r: nat, ghost iterations: nat)
    requires tables.Length0 == TABLE_SIZE && tables.Length1 == TABLE_SIZE && nIdx == Min(n, PRECOMPUTE_MAX_N)
    ensures r <= n
    ensures (r <= nIdx && u <= tables[nIdx, r]) || r == n
    ensures forall j :: 0 <= j < r && j <= nIdx ==> tables[nIdx, j] < u
    ensures iterations == TABLE_SIZE
  {
    var result: nat := 0;
    var found: Mask := 0;
    iterations := 0;
    for k := 0 to TABLE_SIZE
      invariant iterations == k
      invariant found == 0 ==> forall j :: 0 <= j < k && j <= n ==> tables[nIdx, j] < u
      invariant found == 1 ==> result < k && result <= n && u <= tables[nIdx, result]
      invariant found == 1 ==> forall j :: 0 <= j < result ==> tables[nIdx, j] < u
    {
      var kInRange := CtLe(k, n);
      var cdfK := tables[nIdx, k];
      var uLeCdf := CtRealLe(u, cdfK);
      var isNewResult := MaskAnd(MaskAnd(uLeCdf, MaskNot(found)), kInRange);
      result := CtSelect(isNewResult, k, result);
      found := MaskOr(found, isNewResult);
      iterations := iterations + 1;
    }
    r := CtSelect(found, result, n);
  }

  /** `inverse_cdf_precomputed_ct(n, u)`: the table search over row
      min(n, 256), in 257 iterations. */
  method InverseCdfPrecomputedCt(tables: array2<real>, n: nat, u: real) returns (r: nat, ghost iterations: nat)
    requires IsCdfTables(tables)
    ensures r == TableInverseCdf(n, u)
    ensures r <= n
    ensures iterations == TABLE_SIZE
  {
    var nIdx := Min(n, PRECOMPUTE_MAX_N);
    r, iterations := LatchRow(tables, nIdx, n, u);
    TableInverseCdfUnique(n, u, r);
  }

  /** The value `inverse_cdf_fallback_ct(n, p, u)` returns: n clamped to the
      fallback bound, p above one half replaced by 1 - p and the draw
      mirrored within the clamped n. */
  function FallbackSpec(fallbackMaxCount: nat, pmf: Pmf, n: nat, p: real, u: real): (r: nat)
    ensures r <= Min(n, fallbackMaxCount)
  {
    var bound := Min(n, fallbackMaxCount);
    var k := InverseCdf(pmf, if p > 0.5 then 1.0 - p else p, bound, u);
    if p > 0.5 then bound - k else k
  }

  /** `inverse_cdf_fallback_ct`: the shared latch loop with the fallback
      bound, then the complement `n - k`, which cannot underflow. */
  method InverseCdfFallbackCt(s: PrecomputedBinomialSamplerTee, n: nat, p: real, u: real, pmf: Pmf)
    returns (r: nat, ghost iterations: nat)
    ensures r == FallbackSpec(s.fallbackMaxCount, pmf, n, p, u)
    ensures iterations == s.fallbackMaxCount + 1
  {
    var bound := CtMin(n, s.fallbackMaxCount);
    var pAdj := p;
    var useComplement := p > 0.5;
    if useComplement {
      pAdj := 1.0 - p;
    }
    var k;
    k, iterations := InverseCdfCt(bound, s.fallbackMaxCount, pAdj, u, pmf);
    r := if useComplement then bound - k else k;
  }

  /** The value `sample_half(count, prf_output)` returns. */
  function SampleHalfSpec(s: PrecomputedBinomialSamplerTee, pmf: Pmf, count: nat, prfOutput: nat): (r: nat)
    ensures r <= count
  {
    if count <= PRECOMPUTE_MAX_N then TableInverseCdf(count, Uniform(prfOutput))
    else FallbackSpec(s.fallbackMaxCount, pmf, count, 0.5, Uniform(prfOutput))
  }

  /** `sample_half`: the table for count <= 256 (257 iterations), the
      fallback loop otherwise (fallback bound + 1 iterations). */
  method SampleHalf(s: PrecomputedBinomialSamplerTee, tables: array2<real>, count: nat, prfOutput: nat, pmf: Pmf)
    returns (r: nat, ghost iterations: nat)
    requires IsCdfTables(tables)
    ensures r == SampleHalfSpec(s, pmf, count, prfOutput)
    ensures count <= PRECOMPUTE_MAX_N ==> r == TableInverseCdf(count, Uniform(prfOutput)) && iterations == TABLE_SIZE
    ensures count > PRECOMPUTE_MAX_N ==> r == FallbackSpec(s.fallbackMaxCount, pmf, count, 0.5, Uniform(prfOutput))
                                         && iterations == s.fallbackMaxCount + 1
  {
    var u := Uniform(prfOutput);
    if count <= PRECOMPUTE_MAX_N {
      r, iterations := InverseCdfPrecomputedCt(tables, count, u);
    } else {
      r, iterations := InverseCdfFallbackCt(s, count, 0.5, u, pmf);
    }
  }

  /** The value `sample(count, num, denom, prf_output)` returns. */
  function SampleSpec(s: PrecomputedBinomialSamplerTee, pmf: Pmf, count: nat, num: nat, denom: nat, prfOutput: nat): (r: nat)
    ensures r <= count
    ensures denom == 0 || num == 0 ==> r == 0
    ensures 0 < num && 0 < denom <= num ==> r == count
  {
    if denom == 0 || num == 0 then 0
    else if num >= denom then count
    else if 2 * num == denom && count <= PRECOMPUTE_MAX_N then SampleHalfSpec(s, pmf, count, prfOutput)
    else FallbackSpec(s.fallbackMaxCount, pmf, count, num as real / denom as real, Uniform(prfOutput))
  }

  /** The u64 test `num * 2 == denom` wraps in a release build, but for
      num < denom it never matches by accident: it holds exactly when
      2 num == denom. */
  lemma {:induction false} HalfTestNoWrap(num: nat, denom: nat)
    requires num < denom && IsU64(denom)
    ensures WrapMul(num, 2) == denom <==> 2 * num == denom
  {
    if num * 2 >= TWO_POW_64 {
      assert WrapMul(num, 2) == num * 2 - TWO_POW_64;
    }
  }

  /** `sample`: the public edge cases, then `sample_half` exactly when
      num * 2 == denom and count <= 256, and the fallback with p = num/denom
      otherwise. */
  method Sample(s: PrecomputedBinomialSamplerTee, tables: array2<real>, count: nat, num: nat, denom: nat,
                prfOutput: nat, pmf: Pmf)
    returns (r: nat)
    requires IsCdfTables(tables) && IsU64(num) && IsU64(denom)
    ensures r == SampleSpec(s, pmf, count, num, denom, prfOutput)
    ensures 0 < num < denom && 2 * num == denom && count <= PRECOMPUTE_MAX_N ==>
              r == TableInverseCdf(count, Uniform(prfOutput))
    ensures 0 < num < denom && !(2 * num == denom && count <= PRECOMPUTE_MAX_N) ==>
              r == FallbackSpec(s.fallbackMaxCount, pmf, count, num as real / denom as real, Uniform(prfOutput))
  {
    if denom == 0 || num == 0 {
      return 0;
    }
    if num >= denom {
      return count;
    }
    HalfTestNoWrap(num, denom);
    ghost var iterations: nat;
    if WrapMul(num, 2) == denom && count <= PRECOMPUTE_MAX_N {
      r, iterations := SampleHalf(s, tables, count, prfOutput, pmf);
      return;
    }
    var p := num as real / denom as real;
    var u := Uniform(prfOutput);
    r, iterations := InverseCdfFallbackCt(s, count, p, u, pmf);
  }

  /** With the exact pmf, the table path gives the draw of the tee sampler
      for p = 1/2 whenever the tee bound covers count. */
  lemma {:induction false} PrecomputedMatchesTee(s: PrecomputedBinomialSamplerTee, pmf: Pmf, maxCount: nat, count: nat,
                              num: nat, denom: nat, prfOutput: nat)
    requires 0 < num && 2 * num == denom && count <= PRECOMPUTE_MAX_N && count <= maxCount
    ensures SampleSpec(s, pmf, count, num, denom, prfOutput)
         == BinomialTee.SampleSpec(maxCount, ExactHalfPmf, count, num, denom, prfOutput)
  {
    RatioFacts(num, denom);
    TableMatchesExact(count, Uniform(prfOutput));
    assert Min(count, maxCount) == count;
  }
}
