# Plinko invertible PRF and constant-time binomial samplers in Dafny

This project models the integer and control logic of two parts of Plinko.

The first part is the invertible PRF (iPRF) of `state-syncer/src/iprf.rs`. It is built from two pieces:

- **Swap-or-Not permutation** (`SwapOrNot`, Morris–Rogaway) over `[0, N)`.
  - Each round pairs x with its partner `(K_i + N − x) mod N`.
  - It swaps the pair or leaves it alone, according to one PRF bit of `max(x, partner)`.
  - `forward` runs rounds `0 .. r−1`; `inverse` runs them in reverse order.
- **Pseudorandom multinomial sampler (PMNS).** It throws n balls into m bins by walking a binary tree over the bins.
  - At each node a binomial draw decides how many of the node's balls go to the left half.
  - `trace_ball` follows one ball down to its bin.
  - `trace_ball_inverse` returns the contiguous block of balls that ends in a bin.
  - `Iprf::forward` is the permutation followed by `trace_ball`. `Iprf::inverse` is `trace_ball_inverse` followed by the inverse permutation.

The second part is the three constant-time binomial samplers of `plinko/src`:

- **`BinomialSamplerTee`** (`binomial_tee.rs`).
  - It handles the public edge cases of Binomial(count, num/denom).
  - It folds p > 1/2 onto 1 − p and mirrors the draw.
  - It runs a latch loop of exactly `max_count + 1` iterations. The loop accumulates the cdf and latches the first k ≤ min(count, max_count) with u ≤ cdf(k).
- **`LeveledBinomialSamplerTee`** (`binomial_leveled.rs`).
  - It is the same sampler with one iteration bound per tree level. Level 0 has bound n, and each later level ceiling-halves the previous bound.
  - The bounds are kept in a 32-slot array. The model makes it a class with an `array` field that the constructor fills in a loop.
- **`PrecomputedBinomialSamplerTee`** (`binomial_precomputed.rs`).
  - For p = 1/2 and count ≤ 256 it does a 257-step latch search over the `CDF_TABLES` row.
  - Otherwise it uses a log-space fallback loop with its own bound and complement.

Modelling choices:

- **Loops.** Every loop of the source is a Dafny method with a `for`/`while` loop. Its invariants tie the loop to a recursive specification function, and the method's `ensures` states the result in terms of that function. The properties the code promises are then proved about the function as lemmas.
- **PMNS loops.** The state of `trace_ball`'s loop is a `Walk` (node bins, ball count, ball index) and that of `trace_ball_inverse`'s loop a `Search` (node bins, ball count, first ball). One iteration of each is a function (`Descend`, `DescendTo`), and `Trace`/`TraceInverse` repeat it until one bin is left.
- **The table's values.** The mass C(n, k)/2^n is defined by a halved Pascal rule (`HalfBinom`); a lemma shows it equals the product C(n, k)·0.5^n that the table loop computes.
- **AES.** AES is an uninterpreted `Cipher` on the 64-bit words the code reads and writes. `prf_bit` (`SwapOrNot.PrfBit`) is bit 56 of the output word, i.e. the low bit of the first byte.
- **Binomial draw inside the iPRF.** This is a deterministic oracle whose value lies in `[0, ballCount]`.
- **The samplers' pmf.** The ln/exp recurrence is an abstract `Pmf`.
- **Reals.** u = (prf + 0.5)/2^64 and p = num/denom are exact reals.
- **The table.** `CDF_TABLES` holds exact rationals: Σ_{j≤k} C(n, j) / 2^n.
- **Constant-time helpers.** `ct_*` have their 0/1-mask value semantics.
- **Constructors.** `BinomialSamplerTee::new` and `PrecomputedBinomialSamplerTee::new` only store their bound, so they are the datatype constructors.

Where the code and its own comments differ, the model follows the code:

- `round` (iprf.rs:66-67) does not check x < N; it reduces x modulo N, and so does `SwapOrNot.Round`.
- Row 0 of `CDF_TABLES` is 0 past column 0, not 1.0 as the comment at binomial_precomputed.rs:20 says.

## Model

| member | source | states |
|---|---|---|
| Numeric.CeilLog2 | plinko/src/binomial_leveled.rs:36-40 | the ceiling of log2(m) taken exactly: m ≤ 2^r and, for m ≥ 2, 2^(r−1) < m (the least such r) |
| Numeric.RatioFacts | plinko/src/binomial_tee.rs:48-55 | for p = num/denom: 0 ≤ p, p < 1 when num < denom, p > 0 when num > 0, p > 1/2 exactly when 2·num > denom, p = 1/2 when 2·num = denom, and 1 − p = (denom − num)/denom |
| SwapOrNot.New | state-syncer/src/iprf.rs:27-37 | the round count 6·ceil(log2 N) + 6 is a positive multiple of 6 with N ≤ 2^(r/6 − 1) and, for N ≥ 2, 2^(r/6 − 2) < N |
| SwapOrNot.DeriveRoundKey | state-syncer/src/iprf.rs:40-49 | the round key reduced modulo the domain lies in [0, N) |
| SwapOrNot.RoundTag | state-syncer/src/iprf.rs:54 | `round as u64` with bit 63 set: the tag is at least 2^63, keeps the round's low 63 bits and stays a u64 |
| SwapOrNot.BeBytes | state-syncer/src/iprf.rs:54-55 | the big-endian encoding has the requested number of bytes, each below 256 |
| SwapOrNot.BeBytesFirst | state-syncer/src/iprf.rs:60 | byte 0 of the eight big-endian bytes of a word is its top byte |
| SwapOrNot.PrfBitIsLowBitOfFirstByte | state-syncer/src/iprf.rs:51-61 | the swap bit is the low bit of byte 0 of the big-endian cipher output on the block (tagged round, canonical) |
| SwapOrNot.Partner | state-syncer/src/iprf.rs:66-67 | the partner (k + N − x mod N) mod N lies in [0, N) |
| SwapOrNot.PartnerValue | state-syncer/src/iprf.rs:66-67 | for k, x < N the partner is k − x when x ≤ k and k + N − x otherwise |
| SwapOrNot.PartnerInvolution | state-syncer/src/iprf.rs:66-67 | the partner of the partner of x is x |
| SwapOrNot.Round | state-syncer/src/iprf.rs:63-76 | a round maps [0, N) into [0, N) |
| SwapOrNot.RoundInvolution | state-syncer/src/iprf.rs:63-76 | a round is an involution on [0, N): applying it twice returns x |
| SwapOrNot.ForwardRounds | state-syncer/src/iprf.rs:78-85 | rounds 0 .. i−1 in ascending order keep values in [0, N) |
| SwapOrNot.InverseRounds | state-syncer/src/iprf.rs:87-94 | rounds i−1 .. 0 in descending order keep values in [0, N) |
| SwapOrNot.InverseUndoesForward | state-syncer/src/iprf.rs:78-94 | inverse(forward(x)) == x for every x < N and any round count |
| SwapOrNot.ForwardUndoesInverse | state-syncer/src/iprf.rs:78-94 | forward(inverse(y)) == y for every y < N and any round count |
| SwapOrNot.ForwardInjective | state-syncer/src/iprf.rs:343-353 | forward is injective on [0, N) |
| SwapOrNot.ForwardIsPermutation | state-syncer/src/iprf.rs:343-353 | the image of [0, N) under forward is exactly [0, N) |
| SwapOrNot.Forward | state-syncer/src/iprf.rs:78-85 | the loop computes forward(x); for x < N the result is in [0, N) and inverse maps it back to x |
| SwapOrNot.Inverse | state-syncer/src/iprf.rs:87-94 | the descending loop computes inverse(y); for y < N the result is in [0, N) and forward maps it back to y |
| SwapOrNot.PartnerWrapping | state-syncer/src/iprf.rs:67 | the partner computed with wrapping u64 `+` and `-` still lies in [0, N) |
| SwapOrNot.RoundWrapping | state-syncer/src/iprf.rs:63-76 | the round as a release build computes it maps [0, N) into [0, N) |
| SwapOrNot.PartnerWrappingAgrees | state-syncer/src/iprf.rs:67 | when k + N does not overflow u64 the wrapping partner equals the exact partner (k + N − x mod N) mod N |
| SwapOrNot.RoundWrappingAgreesBelow2To63 | state-syncer/src/iprf.rs:67 | for N ≤ 2^63 and u64 inputs the wrapping round equals the intended round |
| SwapOrNot.RoundWrappingNotInjective | state-syncer/src/iprf.rs:67 | for N = 2^64 − 1, under the colliding cipher, the wrapping round sends both 0 and N − 1 to 0 |
| Iprf.LeftCount | state-syncer/src/iprf.rs:169-180 | the number of a node's balls sent to the left half never exceeds the node's ball count |
| Iprf.NodeUniform | state-syncer/src/iprf.rs:179 | the uniform ((prf >> 11) + 0.5)/2^53 is positive, and below 1 for a u64 PRF output |
| Iprf.Descend | state-syncer/src/iprf.rs:168-192 | one iteration of trace_ball keeps the ball in a strictly smaller sub-node of [low, high] and its index below that sub-node's ball count |
| Iprf.Trace | state-syncer/src/iprf.rs:168-194 | following the walk of one ball from node [low, high] until one bin is left ends in a bin of [low, high] |
| Iprf.DescendTo | state-syncer/src/iprf.rs:209-231 | one iteration of trace_ball_inverse moves to a strictly smaller sub-node of [low, high] whose block of balls lies within the current block |
| Iprf.TraceInverse | state-syncer/src/iprf.rs:209-233 | the block of balls ending in bin y lies within the block of balls the search started from |
| Iprf.BallBin | state-syncer/src/iprf.rs:158-195 | the bin of a ball among m ≥ 1 bins lies in [0, m) |
| Iprf.BinBalls | state-syncer/src/iprf.rs:197-235 | the block of balls of bin y lies within [0, n) |
| Iprf.DescendTogether | state-syncer/src/iprf.rs:168-192 | the walk of a ball and the search for bin y through the same node either go to the same half with the same absolute ball index, or part with the ball left of the search's block when y is right of the ball's half, or right of it when y is left |
| Iprf.TraceInverseExact | state-syncer/src/iprf.rs:157-235 | within a node, the ball with absolute index ballStart + ballIndex lies in the block the search for bin y returns exactly when its walk ends in y |
| Iprf.MidpointWrapping | state-syncer/src/iprf.rs:169 | the release-build midpoint equals (low + high)/2 whenever the u64 sum does not overflow |
| Iprf.MidpointNoWrap | state-syncer/src/iprf.rs:169 | for nodes within [0, 2^63] the release-build midpoint lies in [low, high) |
| Iprf.MidpointWrappingLeavesNode | state-syncer/src/iprf.rs:169 | for m = 2^64 − 1 the root splits at 2^63 − 1 and its right child [2^63, 2^64 − 2] gets midpoint 2^62 − 1, below the node |
| Iprf.BinBallsExact | state-syncer/src/iprf.rs:144-146 | for z < n and y < m, z is in the block of bin y exactly when ball z lands in bin y |
| Iprf.TraceBall | state-syncer/src/iprf.rs:157-195 | the binary-search loop returns the ball's bin, which is in [0, m) and is 0 when m == 1 |
| Iprf.TraceBallInverse | state-syncer/src/iprf.rs:197-235 | the loop returns [start, start + count) ⊆ [0, n), and for y < m, z < n, z is in it exactly when ball z lands in bin y |
| Iprf.Eval | state-syncer/src/iprf.rs:134-142 | the iPRF value of x < domain lies in [0, range) |
| Iprf.Forward | state-syncer/src/iprf.rs:134-142 | forward returns the iPRF value: 0 for x ≥ domain, and a bin in [0, range) otherwise |
| Iprf.Inverse | state-syncer/src/iprf.rs:144-155 | inverse is empty for y ≥ range, and otherwise lists each x < domain with forward(x) == y exactly once and nothing else |
| CdfSearch.Uniform | plinko/src/binomial_tee.rs:49 | u = (prf + 0.5)/2^64 lies in (0, 1) for a u64 prf output |
| CdfSearch.Cdf | plinko/src/binomial_tee.rs:93-98 | the masked running cdf is non-negative when the pmf is |
| CdfSearch.SearchFrom | plinko/src/binomial_tee.rs:100-108 | the scan from `from` returns the first k in [from, n] with u ≤ cdf(k), or n |
| CdfSearch.InverseCdf | plinko/src/binomial_tee.rs:100-108 | the latch value is the least k ≤ n with u ≤ cdf(k), and n when no k < n qualifies |
| CdfSearch.InverseCdfUnique | plinko/src/binomial_tee.rs:100-108 | those three properties determine the latch value uniquely |
| CdfSearch.CdfFrozenPastN | plinko/src/binomial_tee.rs:93-98 | iterations with k > n leave the cdf unchanged |
| CdfSearch.CdfMonotone | plinko/src/binomial_tee.rs:96-98 | with a non-negative pmf the accumulated cdf never decreases |
| CdfSearch.InverseCdfThreshold | plinko/src/binomial_tee.rs:100-108 | with a non-negative pmf, for j < n, the latch value is ≤ j exactly when u ≤ cdf(j) |
| CdfSearch.InverseCdfCt | plinko/src/binomial_leveled.rs:95-134 | the latch loop runs exactly max_n + 1 iterations and returns the inverse cdf over min(n, max_n), never above n or max_n |
| BinomialTee.SearchProbability | plinko/src/binomial_tee.rs:48-55 | the probability after the symmetry step lies in (0, 1/2] |
| BinomialTee.SampleSpec | plinko/src/binomial_tee.rs:39-63 | the sample is ≤ count; it is 0 for denom == 0 or num == 0, count for 0 < denom ≤ num, and 0 for count == 0 |
| BinomialTee.InverseCdfCt | plinko/src/binomial_tee.rs:65-109 | with the sampler's bound, exactly max_count + 1 iterations; the result is the inverse cdf over min(n, max_count), ≤ n and ≤ max_count |
| BinomialTee.Sample | plinko/src/binomial_tee.rs:35-63 | sample returns the specified draw, and its loop runs max_count + 1 times whenever 0 < num < denom, whatever count is |
| BinomialTee.SampleIgnoresBound | plinko/src/binomial_tee.rs:150-161 | two samplers whose bounds are both ≥ count return the same sample |
| BinomialTee.SampleComplement | plinko/src/binomial_tee.rs:51-61 | for p > 1/2 the sample is count minus the sample for (denom − num)/denom |
| BinomialTee.SampleThreshold | plinko/src/binomial_tee.rs:100-108 | for p ≤ 1/2 and a non-negative pmf, the sample is ≤ j exactly when u ≤ cdf(j) |
| BinomialLeveled.CeilHalf | plinko/src/binomial_leveled.rs:50 | the update yields the ceiling of b/2: b ≤ 2h ≤ b + 1 |
| BinomialLeveled.LevelCapacity | plinko/src/binomial_leveled.rs:43-51 | a level bound never exceeds n |
| BinomialLeveled.TreeDepth | plinko/src/binomial_leveled.rs:36-40 | the tree depth is at least 1 and 2^depth covers m |
| BinomialLeveled.SumCapacities | plinko/src/binomial_leveled.rs:145-148 | the bounds of L ≥ 1 levels sum to at least n (level 0) and at most L·n |
| BinomialLeveled.Sum | plinko/src/binomial_leveled.rs:147 | the `iter().sum()` of a slice is at least each of its elements |
| BinomialLeveled.LevelCapacityIsCeiling | plinko/src/binomial_leveled.rs:6-9 | the bound of level k is ceil(n / 2^k) |
| BinomialLeveled.LevelCapacityNonIncreasing | plinko/src/binomial_leveled.rs:46-51 | bounds do not grow from a level to a deeper one |
| BinomialLeveled.LevelCapacityPositive | plinko/src/binomial_leveled.rs:164-165 | with n ≥ 1 every level bound is positive |
| BinomialLeveled.SumCapacitiesBound | plinko/src/binomial_leveled.rs:194-195 | the first L bounds plus twice the next bound sum to at most 2n + L |
| BinomialLeveled.SumCapacitiesBelow | plinko/src/binomial_leveled.rs:194-195 | the first L ≥ 1 bounds sum to less than 2n + L |
| BinomialLeveled.TreeDepthExample | plinko/src/binomial_leveled.rs:164 | a tree over m = 256 bins has 8 levels |
| BinomialLeveled.LevelCapacityExample | plinko/src/binomial_leveled.rs:156-166 | for n = 49152 the bounds of levels 0, 1 and 7 are 49152, 24576 and 384 |
| BinomialLeveled.SumCapacitiesExample | plinko/src/binomial_leveled.rs:188-205 | for n = 12 500 000 the bounds of 8 levels sum to less than 8n/3 |
| BinomialLeveled.LevelCapacityWrappingAgrees | plinko/src/binomial_leveled.rs:44-51 | for n < u64::MAX the wrapping update computes the ceiling-halved bounds |
| BinomialLeveled.CeilHalfWrapping | plinko/src/binomial_leveled.rs:50 | the u64 update never exceeds b; it is the ceiling half below u64::MAX and 0 at u64::MAX |
| BinomialLeveled.LevelCapacityWrapping | plinko/src/binomial_leveled.rs:43-51 | the bounds as a release build computes them never exceed n |
| BinomialLeveled.LevelCapacityWrappingAtMax | plinko/src/binomial_leveled.rs:50 | for n = u64::MAX the wrapping update gives level 1 the bound 0 where the ceiling half is 2^63 |
| BinomialLeveled.FillLevelBounds | plinko/src/binomial_leveled.rs:43-51 | the loop fills a fresh 32-slot array: slot i < min(levels, 32) holds the ceil-halved bound i of n (ceil(n / 2^i)), every other slot 0 |
| BinomialLeveled.LeveledBinomialSamplerTee.constructor | plinko/src/binomial_leveled.rs:35-57 | new fills slot i < min(depth(m), 32) with ceil-halved bound i of n, and leaves the other slots 0 |
| BinomialLeveled.LeveledBinomialSamplerTee.EffectiveLevel | plinko/src/binomial_leveled.rs:72-76 | the level whose bound sample uses is the level itself when valid, else the last valid one |
| BinomialLeveled.LeveledBinomialSamplerTee.LevelBound | plinko/src/binomial_leveled.rs:136-143 | level_bound is the level's ceil-halved bound for a valid level and 0 past the tree, never above n |
| BinomialLeveled.LeveledBinomialSamplerTee.SumOfBounds | plinko/src/binomial_leveled.rs:145-148 | the slice sum of the first L slots is the sum of the first L level bounds |
| BinomialLeveled.LeveledBinomialSamplerTee.TotalIterations | plinko/src/binomial_leveled.rs:145-148 | total_iterations is the sum of the valid level bounds and is below 2n + num_levels |
| BinomialLeveled.LeveledBinomialSamplerTee.TotalIterationsBelowNaive | plinko/src/binomial_leveled.rs:187-205 | an 8-level tree over at least 49 balls costs fewer than 8n/3 iterations |
| BinomialLeveled.LeveledBinomialSamplerTee.Sample | plinko/src/binomial_leveled.rs:59-91 | sample is the tee draw with the level's bound (the last level's past the tree), ≤ count, with bound + 1 iterations; when count fits the bound it equals every tee sampler's draw with a bound ≥ count |
| BinomialCoefficients.BinomZeroPastN | plinko/src/binomial_precomputed.rs:30-43 | C(n, k) = 0 for k > n |
| BinomialCoefficients.BinomAbsorption | plinko/src/binomial_precomputed.rs:39-41 | k·C(n, k) = n·C(n − 1, k − 1) |
| BinomialCoefficients.BinomStep | plinko/src/binomial_precomputed.rs:39-41 | (k + 1)·C(n, k + 1) = (n − k)·C(n, k), the recurrence the table loop multiplies by |
| BinomialCoefficients.HalfPow | plinko/src/binomial_precomputed.rs:30 | 0.5^n lies in (0, 1] |
| BinomialCoefficients.HalfBinom | plinko/src/binomial_precomputed.rs:35-36 | the Binomial(n, 1/2) mass C(n, k)/2^n, defined by the halved Pascal rule, is non-negative |
| BinomialCoefficients.HalfBinomZeroPastN | plinko/src/binomial_precomputed.rs:30-43 | the mass is 0 for k > n |
| BinomialCoefficients.HalfBinomIsScaled | plinko/src/binomial_precomputed.rs:35-36 | the mass equals the product C(n, k)·0.5^n the table loop computes |
| BinomialCoefficients.HalfPrefixPascal | plinko/src/binomial_precomputed.rs:30-43 | the cdf of row n at k is half the sum of the cdfs of row n − 1 at k and k − 1 |
| BinomialCoefficients.HalfPrefixFull | plinko/src/binomial_precomputed.rs:30-43 | the masses of row n sum to exactly 1 |
| BinomialCoefficients.HalfPrefixMonotone | plinko/src/binomial_precomputed.rs:30-43 | the cdf does not decrease along a row |
| BinomialPrecomputed.TableEntry | plinko/src/binomial_precomputed.rs:18-51 | every exact table entry lies in [0, 1] |
| BinomialPrecomputed.IsCdfTables | plinko/src/binomial_precomputed.rs:22-51 | every entry of the built tables is a probability in [0, 1] |
| BinomialPrecomputed.RowValueBounds | plinko/src/binomial_precomputed.rs:30-43 | for k ≤ n the Binomial(n, 1/2) cdf at k lies in [0, 1] |
| BinomialPrecomputed.ExactHalfPmf | plinko/src/binomial_precomputed.rs:35 | the pmf the table stands for is the exact mass C(n, k)/2^n, which is non-negative |
| BinomialPrecomputed.CoefficientStep | plinko/src/binomial_precomputed.rs:39-41 | multiplying C(n, k) by (n − k)/(k + 1) gives C(n, k + 1) |
| BinomialPrecomputed.RowStep | plinko/src/binomial_precomputed.rs:34-38 | one inner iteration adds C(n, k)·0.5^n to the running cdf, giving entry [n][k], which is also the running cdf before column k + 1 |
| BinomialPrecomputed.CoefficientNext | plinko/src/binomial_precomputed.rs:39-41 | the coefficient update C(n, k)·(n − k)/(k + 1) yields C(n, k + 1) |
| BinomialPrecomputed.FillRowCdf | plinko/src/binomial_precomputed.rs:30-43 | the inner loop writes entries [n][0..n] with their exact values and changes nothing else |
| BinomialPrecomputed.FillRow | plinko/src/binomial_precomputed.rs:29-47 | row n > 0 gets its exact values, with 1 past column n, and no other row changes |
| BinomialPrecomputed.BuildCdfTables | plinko/src/binomial_precomputed.rs:22-51 | the initialiser yields a fresh 257 × 257 table whose every entry is its exact value |
| BinomialPrecomputed.TableShape | plinko/src/binomial_precomputed.rs:27-28 | row 0 is 1 at column 0 and 0 elsewhere; a row n > 0 is 1 past column n |
| BinomialPrecomputed.TableRowEnds | plinko/src/binomial_precomputed.rs:182-204 | a row n > 0 starts above 0 and equals exactly 1 at column n |
| BinomialPrecomputed.TableRowMonotone | plinko/src/binomial_precomputed.rs:188-195 | each row n > 0 is non-decreasing |
| BinomialPrecomputed.TableIsExactCdf | plinko/src/binomial_precomputed.rs:18-20 | entry [n][k] for k ≤ n equals the cdf the exact Binomial(n, 1/2) pmf accumulates |
| BinomialPrecomputed.TableSearchFrom | plinko/src/binomial_precomputed.rs:109-119 | the scan returns the first k ≤ min(n, 256) from `from` whose entry reaches u, or n |
| BinomialPrecomputed.TableInverseCdf | plinko/src/binomial_precomputed.rs:102-120 | the table search is the least k ≤ min(n, 256) with u ≤ table[k], or n; never above n |
| BinomialPrecomputed.TableInverseCdfUnique | plinko/src/binomial_precomputed.rs:109-119 | those properties determine the table search uniquely |
| BinomialPrecomputed.TableMatchesExact | plinko/src/binomial_precomputed.rs:206-218 | for n ≤ 256 the table search equals the exact Binomial(n, 1/2) inverse cdf |
| BinomialPrecomputed.LatchRow | plinko/src/binomial_precomputed.rs:104-119 | the 257-iteration latch over the stored row min(n, 256) returns the first k ≤ n whose entry reaches u, or n, never above n |
| BinomialPrecomputed.InverseCdfPrecomputedCt | plinko/src/binomial_precomputed.rs:98-120 | on the exact tables the loop always runs 257 iterations and returns the table search, ≤ n |
| BinomialPrecomputed.FallbackSpec | plinko/src/binomial_precomputed.rs:124-174 | the fallback draw is ≤ min(n, fallback_max_count) |
| BinomialPrecomputed.InverseCdfFallbackCt | plinko/src/binomial_precomputed.rs:122-174 | the fallback runs fallback_max_count + 1 iterations and returns the fallback draw |
| BinomialPrecomputed.SampleHalfSpec | plinko/src/binomial_precomputed.rs:68-76 | sample_half's draw is ≤ count |
| BinomialPrecomputed.SampleHalf | plinko/src/binomial_precomputed.rs:63-76 | sample_half uses the table (257 iterations) exactly when count ≤ 256 and the fallback otherwise |
| BinomialPrecomputed.SampleSpec | plinko/src/binomial_precomputed.rs:78-96 | the sample is ≤ count, 0 for denom == 0 or num == 0, count for 0 < denom ≤ num |
| BinomialPrecomputed.HalfTestNoWrap | plinko/src/binomial_precomputed.rs:88 | for num < denom < 2^64 the wrapping test num·2 == denom holds exactly when 2·num == denom |
| BinomialPrecomputed.Sample | plinko/src/binomial_precomputed.rs:78-96 | sample goes to the table exactly when 2·num == denom and count ≤ 256, and to the fallback with num/denom otherwise |
| BinomialPrecomputed.PrecomputedMatchesTee | plinko/src/binomial_precomputed.rs:206-218 | with the exact pmf, the p = 1/2 table path gives the tee sampler's draw whenever the tee bound covers count |

## Left out

- AES-128 (`derive_round_key`, `prf_bit`, `prf_eval`) and SHA-256 (`encode_node`, the PRP key derivation in `Iprf::new`) are foreign primitives. They are uninterpreted functions, so the permutation is modelled for every cipher.
- `Iprf::new` is not modelled. The instance holds the permutation directly, and the unused `_tree_depth` is dropped.
- `binomial_inverse_cdf`, `normal_approx_binomial` and `inv_normal_cdf` are floating-point code. They are replaced by a deterministic oracle bounded by the ball count, which every path of that code respects.
- All f64 arithmetic is exact reals. Rounding can change a comparison `u <= cdf`, the test `p > 0.5` or the value `1 − p` in the real code.
- The samplers' ln/exp pmf recurrence is an abstract pmf.
- The f64 `CDF_TABLES` are exact rationals. The source's own check of entry [n][n] only asks for 1 within 1e-10.
- Numeric.CeilLog2: it is exact, while f64 `log2().ceil()` rounds down for m just above a power of two from about 2^49 on: for m = 2^49 + 1, log2 m exceeds 49 by less than half an ulp of 49, so the f64 result is 49. This affects `SwapOrNot::new` and `LeveledBinomialSamplerTee::new`.
- u64 widths are modelled only for the three findings below and the `num * 2` test. Everything else uses unbounded naturals.
- Iprf.TraceBall / Iprf.TraceBallInverse: they use the exact midpoint, while `(low + high) / 2` (iprf.rs:169, :210) wraps on u64 once the range m is at least 2^63 + 2 (third finding below); for such ranges BinBallsExact and the exactness of `TraceBallInverse` are not established for the code as written.
- The SwapOrNot members require domain > 0. The source reduces modulo `self.domain` (iprf.rs:48, :67) and panics with a division by zero for domain 0.
- BinomialLeveled.LeveledBinomialSamplerTee.TotalIterations: it does not model that the u64 sum can overflow for n close to 2^64.
- Debug-build overflow panics are not modelled. Neither is the underflow of `m - 1` in `trace_ball` for m = 0; the iPRF instance requires a range of at least 1.
- `trace_ball_inverse` materialises the block as a `Vec`. The model returns its start and count.
- Timing obliviousness of the `ct_*` helpers cannot be stated in Dafny. Only their values are modelled.
- `CDF_TABLES` is a lazily built global. The model builds it with a method and passes it to the precomputed sampler's methods.
- The statistical tests (sample means) and the f64 comparisons with the non-constant-time sampler `binomial_sample` are not modelled. `binomial_sample` is not part of this model.
- `plinko/src/binomial_gaussian.rs`, `plinko/src/bin/` and `plinko/src/lib.rs` are not part of this model.

## Findings

| source | as written | input that shows it | evidently intended | confidence | as-written member | corrected member |
|---|---|---|---|---|---|---|
| state-syncer/src/iprf.rs:67 | `k_i + self.domain` is computed on u64: for N > 2^63 it wraps in a release build and panics in a debug build | N = 2^64 − 1 with round key N − 1 and a swap bit set only at N − 1: both x = 0 and x = N − 1 leave the round as 0 | the partner (K_i + N − x) mod N without overflow, which makes every round an involution | not executed | SwapOrNot.RoundWrappingNotInjective | SwapOrNot.RoundInvolution |
| plinko/src/binomial_leveled.rs:50 | `(max_balls + 1) / 2` is computed on u64 and wraps at max_balls = u64::MAX | n = 2^64 − 1: level 1 gets bound 0 instead of ceil(n/2) = 2^63, so its draws collapse to 0, or to count when p > 1/2 | the ceiling half of the previous bound, ceil(n / 2^k) at level k | not executed | BinomialLeveled.LevelCapacityWrappingAtMax | BinomialLeveled.LevelCapacityIsCeiling |
| state-syncer/src/iprf.rs:169 | the node midpoint `(low + high) / 2` is computed on u64 (also at :210) and wraps once low + high ≥ 2^64, which happens for ranges m ≥ 2^63 + 2 | m = 2^64 − 1: the root [0, 2^64 − 2] splits at 2^63 − 1, and its right child [2^63, 2^64 − 2] gets the wrapped midpoint 2^62 − 1, below the node, so `mid - low + 1` underflows too | a midpoint in [low, high), e.g. low + (high − low) / 2, so that each step keeps the walk inside the node | not executed | Iprf.MidpointWrappingLeavesNode | Iprf.Descend |
