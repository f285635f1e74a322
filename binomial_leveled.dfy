/** `LeveledBinomialSamplerTee`: the tee sampler with one iteration bound per
    level of the PMNS tree. A node at depth k of a tree over n balls holds at
    most ceil(n / 2^k) of them when the split is even, so level k runs
    ceil(n / 2^k) + 1 iterations instead of n + 1. */
module BinomialLeveled {
  import opened Numeric
  import opened ConstantTime
  import opened CdfSearch
  import BinomialTee

  /** `MAX_TREE_DEPTH`: the number of level slots. */
  const MAX_TREE_DEPTH: nat := 32

  /** `(b + 1) / 2` on unbounded integers: the ceiling of b / 2. */
  function CeilHalf(b: nat): (h: nat)
    ensures b <= 2 * h <= b + 1
  {
    (b + 1) / 2
  }

  /** The bound of level `level`: n at the root, then ceiling-halved from each
      level to the next. */
  function LevelCapacity(n: nat, level: nat): (c: nat)
    ensures c <= n
  {
    if level == 0 then n else CeilHalf(LevelCapacity(n, level - 1))
  }

  /** The tree depth `new` derives from the range m: 1 for m <= 1, otherwise
      the ceiling of log2(m). */
  function TreeDepth(m: nat): (d: nat)
    ensures d >= 1
    ensures m <= Pow2(d)
  {
    if m <= 1 then 1 else CeilLog2(m)
  }

  /** The sum of the bounds of levels 0 .. levels - 1. */
  function SumCapacities(n: nat, levels: nat): (total: nat)
    ensures levels >= 1 ==> n <= total
    ensures total <= levels * n
  {
    if levels == 0 then 0 else SumCapacities(n, levels - 1) + LevelCapacity(n, levels - 1)
  }

  /** The sum of a sequence of bounds, as `iter().sum()` adds them. */
  function Sum(s: seq<nat>): (total: nat)
    ensures forall i :: 0 <= i < |s| ==> s[i] <= total
  {
    if |s| == 0 then 0 else Sum(s[..|s| - 1]) + s[|s| - 1]
  }

  lemma {:induction false} MulGap(x: nat, y: nat, d: nat)
    requires x < y
    ensures x * d + d <= y * d
  {
    var e := y - x - 1;
    assert y * d == x * d + d + e * d;
  }

  lemma {:induction false} DivUnique(a: nat, d: nat, q: nat, r: nat)
    requires d > 0 && a == q * d + r && r < d
    ensures a / d == q
  {
    var q' := a / d;
    var r' := a % d;
    assert a == q' * d + r';
    if q' < q {
      MulGap(q', q, d);
    } else if q < q' {
      MulGap(q, q', d);
    }
  }

  /** Halving a ceiling quotient by p rounds up to the ceiling quotient by 2p. */
  lemma {:induction false} CeilOfCeil(n: nat, p: nat)
    requires p > 0
    ensures ((n + p - 1) / p + 1) / 2 == (n + 2 * p - 1) / (2 * p)
  {
    var c := (n + p - 1) / p;
    var r := (n + p - 1) % p;
    assert n + p - 1 == c * p + r;
    var t := (c + 1) / 2;
    var s := (c + 1) % 2;
    assert c + 1 == 2 * t + s;
    calc {
      n + 2 * p - 1;
      c * p + p + r;
      (c + 1) * p + r;
      (2 * t + s) * p + r;
      t * (2 * p) + (s * p + r);
    }
    DivUnique(n + 2 * p - 1, 2 * p, t, s * p + r);
  }

  /** One halving step of LevelCapacityIsCeiling, over names for its terms. */
  lemma {:induction false} CeilStep(n: nat, p: nat, p2: nat, prev: nat, cur: nat)
    requires p > 0 && p2 == 2 * p && prev == (n + p - 1) / p && cur == (prev + 1) / 2
    ensures cur == (n + p2 - 1) / p2
  {
    CeilOfCeil(n, p);
  }

  /** LevelCapacityIsCeiling with the bound and the power of two returned as
      names, so that each step relates names rather than function terms. */
  lemma {:induction false} CeilingValues(n: nat, level: nat) returns (c: nat, p: nat)
    ensures c == LevelCapacity(n, level) && p == Pow2(level)
    ensures c == (n + p - 1) / p
  {
    c, p := LevelCapacity(n, level), Pow2(level);
    if level > 0 {
      var c0, p0 := CeilingValues(n, level - 1);
      CeilStep(n, p0, p, c0, c);
    }
  }

  /** The level bound is ceil(n / 2^level), as the module documentation states (level k: ceil(n / 2^k)). */
  lemma {:induction false} LevelCapacityIsCeiling(n: nat, level: nat)
    ensures LevelCapacity(n, level) == (n + Pow2(level) - 1) / Pow2(level)
  {
    var c, p := CeilingValues(n, level);
  }

  /** Bounds never grow from one level to a deeper one. */
  lemma {:induction false} LevelCapacityNonIncreasing(n: nat, i: nat, j: nat)
    requires i <= j
    ensures LevelCapacity(n, j) <= LevelCapacity(n, i)
    decreases j
  {
    if i < j {
      LevelCapacityNonIncreasing(n, i, j - 1);
    }
  }

  /** With at least one ball, every level has a positive bound. */
  lemma {:induction false} LevelCapacityPositive(n: nat, level: nat)
    requires n >= 1
    ensures LevelCapacity(n, level) >= 1
  {
    if level > 0 {
      LevelCapacityPositive(n, level - 1);
    }
  }

  /** The geometric bound: the bounds of the first L levels sum to less than
      2n + L (the sum plus twice the next bound is at most 2n + L). */
  lemma {:induction false} SumCapacitiesBound(n: nat, levels: nat)
    ensures SumCapacities(n, levels) + 2 * LevelCapacity(n, levels) <= 2 * n + levels
  {
    if levels > 0 {
      SumCapacitiesBound(n, levels - 1);
    }
  }

  /** The strict form: for a non-empty tree the bounds sum to under 2n + L. */
  lemma {:induction false} SumCapacitiesBelow(n: nat, levels: nat)
    requires levels >= 1
    ensures SumCapacities(n, levels) < 2 * n + levels
  {
    if n >= 1 {
      SumCapacitiesBound(n, levels);
      LevelCapacityPositive(n, levels);
    } else {
      SumCapacitiesBound(n, levels - 1);
    }
  }

  /** For m = 256 bins the tree has 8 levels. */
  lemma TreeDepthExample()
    ensures TreeDepth(256) == 8
  {
    assert CeilLog2(2) == 1;
    assert CeilLog2(4) == 2;
    assert CeilLog2(16) == 4 by { assert CeilLog2(8) == 3; }
    assert CeilLog2(64) == 6 by { assert CeilLog2(32) == 5; }
    assert CeilLog2(256) == 8 by { assert CeilLog2(128) == 7; }
  }

  /** For n = 49152 balls the bounds halve exactly down to level 7. */
  lemma LevelCapacityExample()
    ensures LevelCapacity(49152, 0) == 49152 && LevelCapacity(49152, 1) == 24576
    ensures LevelCapacity(49152, 7) == 384
  {
    assert LevelCapacity(49152, 2) == 12288;
    assert LevelCapacity(49152, 4) == 3072 by { assert LevelCapacity(49152, 3) == 6144; }
    assert LevelCapacity(49152, 6) == 768 by { assert LevelCapacity(49152, 5) == 1536; }
  }

  /** For n = 12 500 000 balls the 8 level bounds sum to under a third of the
      8n iterations a flat bound would cost. */
  lemma SumCapacitiesExample()
    ensures SumCapacities(12_500_000, 8) < 8 * 12_500_000 / 3
  {
    SumCapacitiesBound(12_500_000, 8);
  }

  /** The u64 update `(max_balls + 1) / 2` as a release build computes it. */
  function CeilHalfWrapping(b: nat): (h: nat)
    ensures h <= b
    ensures b < U64_MAX ==> h == CeilHalf(b)
    ensures b == U64_MAX ==> h == 0
  {
    WrapAdd(b, 1) / 2
  }

  /** The level bounds computed with the wrapping update. */
  function LevelCapacityWrapping(n: nat, level: nat): (c: nat)
    ensures c <= n
  {
    if level == 0 then n else CeilHalfWrapping(LevelCapacityWrapping(n, level - 1))
  }

  /** Below u64::MAX the wrapping update never overflows, and the computed
      bounds are the ceiling halves. */
  lemma {:induction false} LevelCapacityWrappingAgrees(n: nat, level: nat)
    requires n < U64_MAX
    ensures LevelCapacityWrapping(n, level) == LevelCapacity(n, level)
  {
    if level > 0 {
      LevelCapacityWrappingAgrees(n, level - 1);
      WrapAddNoOverflow(LevelCapacity(n, level - 1), 1);
    }
  }

  /** At n = u64::MAX, `max_balls + 1` wraps to 0: level 1 gets bound 0
      instead of 2^63. */
  lemma LevelCapacityWrappingAtMax()
    ensures LevelCapacityWrapping(U64_MAX, 1) == 0
    ensures LevelCapacity(U64_MAX, 1) == 0x8000_0000_0000_0000
  {
    assert WrapAdd(U64_MAX, 1) == 0;
  }

  /** The loop of `new(n, m)`: slot `level` gets the current bound, which is
      then ceiling-halved; slots from `levels` on stay 0. */
  method FillLevelBounds(n: nat, levels: nat) returns (bounds: array<nat>)
    requires levels <= MAX_TREE_DEPTH
    ensures fresh(bounds) && bounds.Length == MAX_TREE_DEPTH
    ensures forall i :: 0 <= i < levels ==> bounds[i] == LevelCapacity(n, i)
    ensures forall i :: levels <= i < MAX_TREE_DEPTH ==> bounds[i] == 0
  {
    bounds := new nat[MAX_TREE_DEPTH](_ => 0);
    var maxBalls := n;
    for level := 0 to levels
      invariant maxBalls == LevelCapacity(n, level)
      invariant forall i {:trigger bounds[i]} :: 0 <= i < level ==> bounds[i] == LevelCapacity(n, i)
      invariant forall i :: level <= i < MAX_TREE_DEPTH ==> bounds[i] == 0
    {
      bounds[level] := maxBalls;
      assert LevelCapacity(n, level + 1) == CeilHalf(maxBalls);
      maxBalls := CeilHalf(maxBalls);
    }
  }

  /** The sampler: `level_bounds` is a 32-slot array of which the first
      `num_levels` hold the bounds. `balls` is the n the bounds were derived
      from. */
  class LeveledBinomialSamplerTee {
    const levelBounds: array<nat>
    const numLevels: nat
    ghost const balls: nat

    ghost predicate Valid()
      reads this, levelBounds
    {
      && levelBounds.Length == MAX_TREE_DEPTH
      && 1 <= numLevels <= MAX_TREE_DEPTH
      && (forall i :: 0 <= i < numLevels ==> levelBounds[i] == LevelCapacity(balls, i))
      && (forall i :: numLevels <= i < MAX_TREE_DEPTH ==> levelBounds[i] == 0)
    }

    /** `new(n, m)`: fill the first min(depth(m), 32) slots with the level
        bounds of n; the others stay 0. */
    constructor (n: nat, m: nat)
      ensures Valid()
      ensures balls == n
      ensures numLevels == Min(TreeDepth(m), MAX_TREE_DEPTH)
      ensures fresh(levelBounds)
    {
      var levels := Min(TreeDepth(m), MAX_TREE_DEPTH);
      var bounds := FillLevelBounds(n, levels);
      levelBounds := bounds;
      numLevels := levels;
      balls := n;
    }

    /** The bound the sampler uses at `level`: that level's slot, or the last
        valid slot past the tree. */
    function EffectiveLevel(level: nat): (l: nat)
      reads this
      requires 1 <= numLevels
      ensures l < numLevels
      ensures level < numLevels ==> l == level
    {
      if level < numLevels then level else numLevels - 1
    }

    /** `level_bound(level)`: the bound of a valid level, 0 past the tree. */
    function LevelBound(level: nat): (b: nat)
      reads this, levelBounds
      requires Valid()
      ensures b == if level < numLevels then LevelCapacity(balls, level) else 0
      ensures b <= balls
    {
      if level < numLevels then levelBounds[level] else 0
    }

    lemma {:induction false} SumOfBounds(levels: nat)
      requires Valid() && levels <= numLevels
      ensures Sum(levelBounds[..levels]) == SumCapacities(balls, levels)
    {
      if levels > 0 {
        SumOfBounds(levels - 1);
        assert levelBounds[..levels][..levels - 1] == levelBounds[..levels - 1];
      }
    }

    /** `total_iterations()`: the sum of the valid level bounds. */
    function TotalIterations(): (t: nat)
      reads this, levelBounds
      requires Valid()
      ensures t == SumCapacities(balls, numLevels)
      ensures t < 2 * balls + numLevels
    {
      SumOfBounds(numLevels);
      SumCapacitiesBelow(balls, numLevels);
      Sum(levelBounds[..numLevels])
    }

    /** A tree of 8 levels over at least 49 balls costs under a third of the
        8n iterations of the global bound. */
    lemma TotalIterationsBelowNaive()
      requires Valid() && numLevels == 8 && balls >= 49
      ensures TotalIterations() < 8 * balls / 3
    {
    }

    /** `sample(level, count, num, denom, prf_output)`: the tee sampler with
        the bound of the level (the last level's past the tree); its loop runs
        that bound + 1 times. Whenever count fits the level's bound, the
        sample is the one every tee sampler with a bound of at least count
        returns. */
    method Sample(level: nat, count: nat, num: nat, denom: nat, prfOutput: nat, pmf: Pmf)
      returns (r: nat, ghost iterations: nat)
      requires Valid()
      ensures r == BinomialTee.SampleSpec(LevelCapacity(balls, EffectiveLevel(level)), pmf, count, num, denom, prfOutput)
      ensures r <= count
      ensures 0 < num < denom ==> iterations == LevelCapacity(balls, EffectiveLevel(level)) + 1
      ensures !(0 < num < denom) ==> iterations == 0
      ensures count <= LevelCapacity(balls, EffectiveLevel(level)) ==>
                forall maxCount: nat :: count <= maxCount ==>
                  r == BinomialTee.SampleSpec(maxCount, pmf, count, num, denom, prfOutput)
    {
      if denom == 0 || num == 0 {
        return 0, 0;
      }
      if num >= denom {
        return count, 0;
      }
      var maxCount := if level < numLevels then levelBounds[level] else levelBounds[numLevels - 1];
      var p := num as real / denom as real;
      var u := Uniform(prfOutput);
      var useComplement := p > 0.5;
      if useComplement {
        p := 1.0 - p;
      }
      var countIsZero := CtEq(count, 0);
      var k;
      k, iterations := InverseCdfCt(count, maxCount, p, u, pmf);
      var result := if useComplement then count - k else k;
      r := CtSelect(countIsZero, 0, result);
      if count <= maxCount {
        forall maxCount': nat | count <= maxCount'
          ensures r == BinomialTee.SampleSpec(maxCount', pmf, count, num, denom, prfOutput)
        {
          BinomialTee.SampleIgnoresBound(maxCount, maxCount', pmf, count, num, denom, prfOutput);
        }
      }
    }
  }
}
