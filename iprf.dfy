/** The invertible PRF of Plinko: the Swap-or-Not permutation followed by the
    pseudorandom multinomial sampler (PMNS). The sampler throws n balls into m
    bins by walking a binary tree over the bins: at each node a binomial draw
    decides how many of the node's balls go to the left half. Forward traces one
    ball down to its bin; inverse traces the target bin and returns the
    contiguous block of balls that ends there. */
module Iprf {
  import SwapOrNot
  import Numeric

  /** `prf_eval(encode_node(low, high, n))`: AES over the SHA-256 node
      identifier. Neither primitive is modelled. */
  type NodePrf = (nat, nat, nat) -> nat

  /** `binomial_inverse_cdf(n, p, u)`: a deterministic draw from Binomial(n, p)
      at quantile u. Its floating-point internals are not modelled; every path
      of the code returns a value in [0, n], and that is all the model keeps. */
  type BinomialInverseCdf = b: (nat, real, real) -> nat | forall n, p, u :: b(n, p, u) <= n
    witness (n: nat, p: real, u: real) => 0

  /** An iPRF instance: the permutation, the node PRF, the binomial sampler,
      the domain n and the range m. */
  datatype Iprf = Iprf(prp: SwapOrNot.Prp, nodePrf: NodePrf, binomial: BinomialInverseCdf,
                       domain: nat, range: nat)

  /** The half-open block [start, start + count) of ball indices in one bin. */
  datatype BallRange = BallRange(start: nat, count: nat)

  /** Well-formed instance: the permutation works on the iPRF's domain, and the
      range is not empty (the tree walk starts from bin m - 1). */
  ghost predicate Valid(f: Iprf) {
    f.prp.domain == f.domain && f.range >= 1
  }

  /** The uniform in (0, 1) the code derives from the top 53 bits of the node's
      PRF output: their value plus one half, over 2^53. */
  function NodeUniform(prfOutput: nat): (u: real)
    ensures 0.0 < u
    ensures Numeric.IsU64(prfOutput) ==> u < 1.0
  {
    ((prfOutput / 2048) as real + 0.5) / 9007199254740992.0
  }

  /** The node midpoint `(low + high) / 2` as a release build computes it:
      the u64 sum wraps. Without overflow it is the midpoint. */
  function MidpointWrapping(low: nat, high: nat): (mid: nat)
    ensures low + high < Numeric.TWO_POW_64 ==> mid == (low + high) / 2
  {
    Numeric.WrapAdd(low, high) / 2
  }

  /** With at most 2^63 + 1 bins no node's sum overflows. */
  lemma {:induction false} MidpointNoWrap(low: nat, high: nat)
    requires low < high <= 0x8000_0000_0000_0000
    ensures low <= MidpointWrapping(low, high) < high
  {
  }

  /** Counterexample for m = 2^64 - 1 bins: the root [0, 2^64 - 2] splits at
      2^63 - 1, and in its right child [2^63, 2^64 - 2] the wrapped midpoint
      2^62 - 1 lies below the node, so `mid - low + 1` underflows as well. */
  lemma MidpointWrappingLeavesNode()
    ensures MidpointWrapping(0, 0xFFFF_FFFF_FFFF_FFFE) == 0x7FFF_FFFF_FFFF_FFFF
    ensures MidpointWrapping(0x8000_0000_0000_0000, 0xFFFF_FFFF_FFFF_FFFE) == 0x3FFF_FFFF_FFFF_FFFF
    ensures MidpointWrapping(0x8000_0000_0000_0000, 0xFFFF_FFFF_FFFF_FFFE) < 0x8000_0000_0000_0000
  {
  }

  /** The number of the node's ballCount balls that go to the left half
      [low, mid] of the bins [low, high]. */
  function LeftCount(f: Iprf, n: nat, low: nat, high: nat, ballCount: nat): (c: nat)
    requires low <= high
    ensures c <= ballCount
  {
    var mid := (low + high) / 2;
    var p := (mid - low + 1) as real / (high - low + 1) as real;
    f.binomial(ballCount, p, NodeUniform(f.nodePrf(low, high, n)))
  }

  /** The state of `trace_ball`'s loop: the node's bins [low, high], the
      balls it holds, and the traced ball's index among them. */
  datatype Walk = Walk(low: nat, high: nat, ballCount: nat, ballIndex: nat)

  /** The state of `trace_ball_inverse`'s loop: the node's bins [low, high],
      the balls it holds, and the index of the first of them. */
  datatype Search = Search(low: nat, high: nat, ballCount: nat, ballStart: nat)

  /** One iteration of `trace_ball`'s loop: the ball follows the half its
      index selects, and its index becomes relative to that half. */
  function Descend(f: Iprf, n: nat, w: Walk): (w': Walk)
    requires w.low < w.high
    ensures w.low <= w'.low <= w'.high <= w.high && w'.high - w'.low < w.high - w.low
    ensures w.ballIndex < w.ballCount ==> w'.ballIndex < w'.ballCount
  {
    var mid := (w.low + w.high) / 2;
    var leftCount := LeftCount(f, n, w.low, w.high, w.ballCount);
    if w.ballIndex < leftCount then Walk(w.low, mid, leftCount, w.ballIndex)
    else Walk(mid + 1, w.high, w.ballCount - leftCount, w.ballIndex - leftCount)
  }

  /** The bin in which the walk's ball comes to rest. */
  function Trace(f: Iprf, n: nat, w: Walk): (bin: nat)
    requires w.low <= w.high
    ensures w.low <= bin <= w.high
    decreases w.high - w.low
  {
    if w.low == w.high then w.low else Trace(f, n, Descend(f, n, w))
  }

  /** One iteration of `trace_ball_inverse`'s loop: the search follows the
      half holding bin y, moving its first ball past the left half's balls
      when it goes right. */
  function DescendTo(f: Iprf, n: nat, y: nat, s: Search): (s': Search)
    requires s.low < s.high
    ensures s.low <= s'.low <= s'.high <= s.high && s'.high - s'.low < s.high - s.low
    ensures s.ballStart <= s'.ballStart && s'.ballStart + s'.ballCount <= s.ballStart + s.ballCount
  {
    var mid := (s.low + s.high) / 2;
    var leftCount := LeftCount(f, n, s.low, s.high, s.ballCount);
    if y <= mid then Search(s.low, mid, leftCount, s.ballStart)
    else Search(mid + 1, s.high, s.ballCount - leftCount, s.ballStart + leftCount)
  }

  /** The block of balls the search ends on: those of bin y, within the
      search's own block. */
  function TraceInverse(f: Iprf, n: nat, y: nat, s: Search): (r: BallRange)
    requires s.low <= s.high
    ensures s.ballStart <= r.start && r.start + r.count <= s.ballStart + s.ballCount
    decreases s.high - s.low
  {
    if s.low == s.high then BallRange(s.ballStart, s.ballCount) else TraceInverse(f, n, y, DescendTo(f, n, y, s))
  }

  /** The bin of ball x among n balls and m bins. */
  function BallBin(f: Iprf, n: nat, m: nat, x: nat): (bin: nat)
    requires m >= 1
    ensures bin < m
  {
    if m == 1 then 0 else Trace(f, n, Walk(0, m - 1, n, x))
  }

  /** The balls, among n balls and m bins, that end in bin y. */
  function BinBalls(f: Iprf, n: nat, m: nat, y: nat): (r: BallRange)
    requires m >= 1
    ensures r.start + r.count <= n
  {
    if m == 1 then BallRange(0, n) else TraceInverse(f, n, y, Search(0, m - 1, n, 0))
  }

  /** One iteration of both loops over the same node, the walk of ball
      ballIndex and the search for bin y: either both go to the same half,
      keeping the ball's absolute index, or they part, and then the ball is
      left of the block the search keeps while y is right of the ball's
      half, or the other way round. */
  lemma {:induction false} DescendTogether(f: Iprf, n: nat, y: nat, w: Walk, s: Search)
    requires w.low == s.low < w.high == s.high && w.ballCount == s.ballCount
    requires w.low <= y <= w.high && w.ballIndex < w.ballCount
    ensures var w', s' := Descend(f, n, w), DescendTo(f, n, y, s);
            || (&& w'.low == s'.low && w'.high == s'.high && w'.ballCount == s'.ballCount
                && w'.low <= y <= w'.high && w'.ballIndex < w'.ballCount
                && s'.ballStart + w'.ballIndex == s.ballStart + w.ballIndex)
            || (w'.high < y && s.ballStart + w.ballIndex < s'.ballStart)
            || (y < w'.low && s'.ballStart + s'.ballCount <= s.ballStart + w.ballIndex)
  {
  }

  /** The two walks agree: ball w.ballIndex of a node lies in the block the
      search for bin y over the same node returns exactly when the walk of
      that ball ends in y. */
  lemma {:induction false} TraceInverseExact(f: Iprf, n: nat, y: nat, w: Walk, s: Search)
    requires w.low == s.low <= y <= w.high == s.high && w.ballCount == s.ballCount
    requires w.ballIndex < w.ballCount
    ensures var r := TraceInverse(f, n, y, s);
            r.start <= s.ballStart + w.ballIndex < r.start + r.count <==> Trace(f, n, w) == y
    decreases w.high - w.low
  {
    if w.low < w.high {
      DescendTogether(f, n, y, w, s);
      var w' := Descend(f, n, w);
      var s' := DescendTo(f, n, y, s);
      if w'.low == s'.low {
        TraceInverseExact(f, n, y, w', s');
      }
    }
  }

  /** Top-level form: for z < n and y < m, z is among the balls of bin y
      exactly when ball z lands in bin y. */
  lemma {:induction false} BinBallsExact(f: Iprf, n: nat, m: nat, y: nat, z: nat)
    requires y < m && z < n
    ensures var r := BinBalls(f, n, m, y);
            r.start <= z < r.start + r.count <==> BallBin(f, n, m, z) == y
  {
    if m > 1 {
      TraceInverseExact(f, n, y, Walk(0, m - 1, n, z), Search(0, m - 1, n, 0));
    }
  }

  /** `trace_ball`: the binary search that follows ball xPrime to its bin. */
  method TraceBall(f: Iprf, xPrime: nat, n: nat, m: nat) returns (bin: nat)
    requires m >= 1
    ensures bin == BallBin(f, n, m, xPrime)
    ensures bin < m
    ensures m == 1 ==> bin == 0
  {
    if m == 1 {
      return 0;
    }
    var low: nat, high: nat := 0, m - 1;
    var ballCount: nat, ballIndex: nat := n, xPrime;
    ghost var target := Trace(f, n, Walk(low, high, ballCount, ballIndex));
    while low < high
      invariant low <= high <= m - 1
      invariant Trace(f, n, Walk(low, high, ballCount, ballIndex)) == target
      decreases high - low
    {
      ghost var next := Descend(f, n, Walk(low, high, ballCount, ballIndex));
      var mid := (low + high) / 2;
      var leftCount := LeftCount(f, n, low, high, ballCount);
      if ballIndex < leftCount {
        high := mid;
        ballCount := leftCount;
      } else {
        low := mid + 1;
        ballIndex := ballIndex - leftCount;
        ballCount := ballCount - leftCount;
      }
      assert Walk(low, high, ballCount, ballIndex) == next;
    }
    bin := low;
    assert bin == target;
  }

  /** `trace_ball_inverse`: the binary search towards bin y that accumulates
      the offset of the bin's first ball; the result is [start, start + count). */
  method TraceBallInverse(f: Iprf, y: nat, n: nat, m: nat) returns (start: nat, count: nat)
    requires m >= 1
    ensures BallRange(start, count) == BinBalls(f, n, m, y)
    ensures start + count <= n
    ensures y < m ==> forall z: nat :: z < n ==> (start <= z < start + count <==> BallBin(f, n, m, z) == y)
  {
    if m == 1 {
      start, count := 0, n;
    } else {
      var low: nat, high: nat := 0, m - 1;
      var ballCount: nat, ballStart: nat := n, 0;
      ghost var target := TraceInverse(f, n, y, Search(low, high, ballCount, ballStart));
      while low < high
        invariant low <= high <= m - 1
        invariant TraceInverse(f, n, y, Search(low, high, ballCount, ballStart)) == target
        decreases high - low
      {
        ghost var next := DescendTo(f, n, y, Search(low, high, ballCount, ballStart));
        var mid := (low + high) / 2;
        var leftCount := LeftCount(f, n, low, high, ballCount);
        if y <= mid {
          high := mid;
          ballCount := leftCount;
        } else {
          low := mid + 1;
          ballStart := ballStart + leftCount;
          ballCount := ballCount - leftCount;
        }
        assert Search(low, high, ballCount, ballStart) == next;
      }
      start, count := ballStart, ballCount;
    }
    if y < m {
      forall z: nat | z < n
        ensures start <= z < start + count <==> BallBin(f, n, m, z) == y
      {
        BinBallsExact(f, n, m, y, z);
      }
    }
  }

  /** The iPRF value of x: the permutation, then the ball's bin; 0 outside the
      domain. */
  function Eval(f: Iprf, x: nat): (y: nat)
    requires Valid(f)
    ensures x < f.domain ==> y < f.range
  {
    if x >= f.domain then 0
    else BallBin(f, f.domain, f.range, SwapOrNot.ForwardRounds(f.prp, x, f.prp.numRounds))
  }

  /** `Iprf::forward` */
  method Forward(f: Iprf, x: nat) returns (y: nat)
    requires Valid(f)
    ensures y == Eval(f, x)
    ensures x >= f.domain ==> y == 0
    ensures x < f.domain ==> y < f.range
  {
    if x >= f.domain {
      return 0;
    }
    var permuted := SwapOrNot.Forward(f.prp, x);
    y := TraceBall(f, permuted, f.domain, f.range);
  }

  /** `Iprf::inverse`: every x in the domain with forward(x) == y, each once,
      and nothing else; empty when y is outside the range. */
  method Inverse(f: Iprf, y: nat) returns (xs: seq<nat>)
    requires Valid(f)
    ensures y >= f.range ==> xs == []
    ensures forall x :: x in xs ==> x < f.domain
    ensures forall x: nat :: x < f.domain ==> (x in xs <==> Eval(f, x) == y)
    ensures forall i, j :: 0 <= i < j < |xs| ==> xs[i] != xs[j]
  {
    if y >= f.range {
      return [];
    }
    var start, count := TraceBallInverse(f, y, f.domain, f.range);
    var rounds := f.prp.numRounds;
    xs := [];
    var i := 0;
    while i < count
      invariant i <= count
      invariant |xs| == i
      invariant forall j :: 0 <= j < i ==> xs[j] < f.domain
      invariant forall j :: 0 <= j < i ==> SwapOrNot.ForwardRounds(f.prp, xs[j], rounds) == start + j
    {
      var x := SwapOrNot.Inverse(f.prp, start + i);
      xs := xs + [x];
      i := i + 1;
    }
    forall x: nat | x < f.domain
      ensures x in xs <==> Eval(f, x) == y
    {
      var z := SwapOrNot.ForwardRounds(f.prp, x, rounds);
      SwapOrNot.InverseUndoesForward(f.prp, x, rounds);
      if x in xs {
        var j :| 0 <= j < |xs| && xs[j] == x;
        assert z == start + j;
      }
      if Eval(f, x) == y {
        assert start <= z < start + count;
        var x' := xs[z - start];
        assert SwapOrNot.ForwardRounds(f.prp, x', rounds) == z;
        SwapOrNot.ForwardInjective(f.prp, x, x', rounds);
      }
    }
  }
}
