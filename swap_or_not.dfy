/** The Swap-or-Not small-domain pseudorandom permutation of Morris and Rogaway
    (eprint 2013/560) over [0, domain). Each round pairs x with its partner
    (K_i - x) mod N and swaps the pair or not according to one PRF bit of the
    larger of the two; every round is an involution, so running the rounds in
    reverse order inverts the permutation. */
module SwapOrNot {
  import opened Numeric

  /** AES-128 under the instance key, seen through the 64-bit words the code
      reads and writes: Cipher(hi, lo) is the first eight bytes, big-endian, of
      the encryption of the block whose first eight bytes are hi and whose last
      eight are lo (both big-endian). The cipher itself is not modelled. */
  type Cipher = (nat, nat) -> nat

  /** A Swap-or-Not instance: the keyed cipher, the domain size N and the
      number of rounds. */
  datatype Prp = Prp(cipher: Cipher, domain: nat, numRounds: nat)

  const ROUND_TAG: nat := 0x8000_0000_0000_0000

  /** `SwapOrNot::new`: about 6 log2 N rounds, 6 * ceil(log2 N) + 6 in all. */
  function New(cipher: Cipher, domain: nat): (p: Prp)
    ensures p.cipher == cipher && p.domain == domain
    ensures p.numRounds >= 6 && p.numRounds % 6 == 0
    ensures domain <= Pow2(p.numRounds / 6 - 1)
    ensures domain >= 2 ==> Pow2(p.numRounds / 6 - 2) < domain
  {
    Prp(cipher, domain, CeilLog2(domain) * 6 + 6)
  }

  /** `derive_round_key`: K_i depends only on the round index and the domain. */
  function DeriveRoundKey(p: Prp, round: nat): (k: nat)
    requires p.domain > 0
    ensures k < p.domain
  {
    p.cipher(round, p.domain) % p.domain
  }

  /** `round as u64 | 0x8000000000000000`: the round index with its top bit
      set, which keeps the bit's blocks apart from the round-key blocks. */
  function RoundTag(round: nat): (t: nat)
    ensures ROUND_TAG <= t && t % ROUND_TAG == round % ROUND_TAG
    ensures IsU64(round) ==> IsU64(t)
  {
    if round < ROUND_TAG then round + ROUND_TAG else round
  }

  /** The last `len` bytes of the big-endian encoding of w, most significant
      first (`to_be_bytes` for len = 8). */
  function BeBytes(w: nat, len: nat): (bs: seq<nat>)
    ensures |bs| == len
    ensures forall i :: 0 <= i < len ==> bs[i] < 256
  {
    if len == 0 then [] else BeBytes(w / 256, len - 1) + [w % 256]
  }

  /** Byte 0 of the eight big-endian bytes of w is w's top byte. */
  lemma {:induction false} BeBytesFirst(w: nat)
    ensures BeBytes(w, 8)[0] == (w / 0x100_0000_0000_0000) % 256
  {
    var w1 := w / 256;
    var w2 := w1 / 256;
    var w3 := w2 / 256;
    var w4 := w3 / 256;
    var w5 := w4 / 256;
    var w6 := w5 / 256;
    var w7 := w6 / 256;
    assert BeBytes(w, 8)[0] == BeBytes(w1, 7)[0];
    assert BeBytes(w1, 7)[0] == BeBytes(w2, 6)[0];
    assert BeBytes(w2, 6)[0] == BeBytes(w3, 5)[0];
    assert BeBytes(w3, 5)[0] == BeBytes(w4, 4)[0];
    assert BeBytes(w4, 4)[0] == BeBytes(w5, 3)[0];
    assert BeBytes(w5, 3)[0] == BeBytes(w6, 2)[0];
    assert BeBytes(w6, 2)[0] == BeBytes(w7, 1)[0] == w7 % 256;
    assert w2 == w / 0x1_0000;
    assert w4 == w / 0x1_0000_0000;
    assert w6 == w / 0x1_0000_0000_0000;
  }

  /** Reducing to a byte keeps the low bit. */
  lemma {:induction false} ByteParity(x: nat)
    ensures (x % 256) % 2 == x % 2
  {
    assert x == 256 * (x / 256) + x % 256;
    assert 256 * (x / 256) == 2 * (128 * (x / 256));
  }

  /** `prf_bit`: one bit of the cipher's output on the block holding the
      tagged round index and the canonical value. */
  function PrfBit(p: Prp, round: nat, canonical: nat): bool {
    (p.cipher(RoundTag(round), canonical) / 0x100_0000_0000_0000) % 2 == 1
  }

  /** The bit is the low bit of byte 0 of the big-endian output block, read
      from a block whose first word has its top bit set. */
  lemma {:induction false} PrfBitIsLowBitOfFirstByte(p: Prp, round: nat, canonical: nat)
    ensures PrfBit(p, round, canonical) <==> BeBytes(p.cipher(RoundTag(round), canonical), 8)[0] % 2 == 1
  {
    var word := p.cipher(RoundTag(round), canonical);
    BeBytesFirst(word);
    ByteParity(word / 0x100_0000_0000_0000);
  }

  /** The partner of x for round key k: (k + N - (x mod N)) mod N. */
  function Partner(k: nat, domain: nat, x: nat): (q: nat)
    requires domain > 0
    ensures q < domain
  {
    (k + domain - x % domain) % domain
  }

  /** `round`: x or its partner, chosen by the PRF bit of max(x, partner). */
  function Round(p: Prp, round: nat, x: nat): (y: nat)
    requires p.domain > 0
    ensures x < p.domain ==> y < p.domain
  {
    var partner := Partner(DeriveRoundKey(p, round), p.domain, x);
    var canonical := if x < partner then partner else x;
    if PrfBit(p, round, canonical) then partner else x
  }

  /** Rounds 0, 1, ..., i - 1 applied to x in ascending order. */
  function ForwardRounds(p: Prp, x: nat, i: nat): (y: nat)
    requires p.domain > 0
    ensures x < p.domain ==> y < p.domain
  {
    if i == 0 then x else Round(p, i - 1, ForwardRounds(p, x, i - 1))
  }

  /** Rounds i - 1, i - 2, ..., 0 applied to y in descending order. */
  function InverseRounds(p: Prp, y: nat, i: nat): (x: nat)
    requires p.domain > 0
    ensures y < p.domain ==> x < p.domain
    decreases i
  {
    if i == 0 then y else InverseRounds(p, Round(p, i - 1, y), i - 1)
  }

  /** The partner relation pairs values up: the partner of the partner is x. */
  lemma {:induction false} PartnerInvolution(k: nat, domain: nat, x: nat)
    requires k < domain && x < domain
    ensures Partner(k, domain, Partner(k, domain, x)) == x
  {
    PartnerValue(k, domain, x);
    PartnerValue(k, domain, Partner(k, domain, x));
  }

  /** The partner without the modulus: k - x when x <= k, else k + N - x. */
  lemma {:induction false} PartnerValue(k: nat, domain: nat, x: nat)
    requires k < domain && x < domain
    ensures Partner(k, domain, x) == if x <= k then k - x else k + domain - x
  {
    ModSmall(x, domain);
    if x <= k {
      ModOnce(k + domain - x, domain);
    } else {
      ModSmall(k + domain - x, domain);
    }
  }

  /** a mod n for 0 <= a < n. */
  lemma {:induction false} ModSmall(a: int, n: int)
    requires 0 <= a < n
    ensures a % n == a
  {
    assert a == 0 * n + a;
  }

  /** a mod n for n <= a < 2n. */
  lemma {:induction false} ModOnce(a: int, n: int)
    requires 0 < n <= a < 2 * n
    ensures a % n == a - n
  {
    var r := a - n;
    assert a == 1 * n + r && 0 <= r < n;
  }

  /** Each round is an involution on [0, domain): the partner's partner is x,
      and max(x, partner) is the same from both sides, so the PRF bit agrees. */
  lemma {:induction false} RoundInvolution(p: Prp, round: nat, x: nat)
    requires p.domain > 0 && x < p.domain
    ensures Round(p, round, Round(p, round, x)) == x
  {
    PartnerInvolution(DeriveRoundKey(p, round), p.domain, x);
  }

  /** Running the rounds in reverse undoes running them forward. */
  lemma {:induction false} InverseUndoesForward(p: Prp, x: nat, i: nat)
    requires p.domain > 0 && x < p.domain
    ensures InverseRounds(p, ForwardRounds(p, x, i), i) == x
  {
    if i > 0 {
      var z := ForwardRounds(p, x, i - 1);
      RoundInvolution(p, i - 1, z);
      InverseUndoesForward(p, x, i - 1);
    }
  }

  /** Running the rounds forward undoes running them in reverse. */
  lemma {:induction false} ForwardUndoesInverse(p: Prp, y: nat, i: nat)
    requires p.domain > 0 && y < p.domain
    ensures ForwardRounds(p, InverseRounds(p, y, i), i) == y
    decreases i
  {
    if i > 0 {
      var y' := Round(p, i - 1, y);
      ForwardUndoesInverse(p, y', i - 1);
      RoundInvolution(p, i - 1, y);
    }
  }

  /** The forward direction is injective on [0, domain). */
  lemma {:induction false} ForwardInjective(p: Prp, x1: nat, x2: nat, i: nat)
    requires p.domain > 0 && x1 < p.domain && x2 < p.domain
    requires ForwardRounds(p, x1, i) == ForwardRounds(p, x2, i)
    ensures x1 == x2
  {
    InverseUndoesForward(p, x1, i);
    InverseUndoesForward(p, x2, i);
  }

  /** The values the forward direction takes on [0, domain). */
  ghost function Image(p: Prp, i: nat): set<nat>
    requires p.domain > 0
  {
    set x: nat | x < p.domain :: ForwardRounds(p, x, i)
  }

  /** The forward direction maps [0, domain) onto itself: it is a permutation. */
  lemma {:induction false} ForwardIsPermutation(p: Prp, i: nat)
    requires p.domain > 0
    ensures forall y: nat :: y in Image(p, i) <==> y < p.domain
  {
    var image := Image(p, i);
    forall y | y in image
      ensures y < p.domain
    {
      var x: nat :| x < p.domain && y == ForwardRounds(p, x, i);
    }
    forall y: nat | y < p.domain
      ensures y in image
    {
      ForwardUndoesInverse(p, y, i);
      assert ForwardRounds(p, InverseRounds(p, y, i), i) in image;
    }
  }

  /** `forward`: rounds 0 .. numRounds - 1 in ascending order. */
  method Forward(p: Prp, x: nat) returns (y: nat)
    requires p.domain > 0
    ensures y == ForwardRounds(p, x, p.numRounds)
    ensures x < p.domain ==> y < p.domain && InverseRounds(p, y, p.numRounds) == x
  {
    y := x;
    for round := 0 to p.numRounds
      invariant y == ForwardRounds(p, x, round)
    {
      y := Round(p, round, y);
    }
    if x < p.domain {
      InverseUndoesForward(p, x, p.numRounds);
    }
  }

  /** `inverse`: rounds numRounds - 1 .. 0 in descending order. */
  method Inverse(p: Prp, y: nat) returns (x: nat)
    requires p.domain > 0
    ensures x == InverseRounds(p, y, p.numRounds)
    ensures y < p.domain ==> x < p.domain && ForwardRounds(p, x, p.numRounds) == y
  {
    x := y;
    var round: nat := p.numRounds;
    while round > 0
      invariant round <= p.numRounds
      invariant InverseRounds(p, x, round) == InverseRounds(p, y, p.numRounds)
    {
      round := round - 1;
      x := Round(p, round, x);
    }
    if y < p.domain {
      ForwardUndoesInverse(p, y, p.numRounds);
    }
  }

  // ---------------------------------------------------------------------------
  // The partner as the code computes it on u64 in a release build, where
  // `k_i + self.domain` wraps once the domain exceeds 2^63.

  /** The partner computed with wrapping u64 arithmetic. */
  function PartnerWrapping(k: nat, domain: nat, x: nat): (q: nat)
    requires domain > 0
    ensures q < domain
  {
    WrapSub(WrapAdd(k, domain), x % domain) % domain
  }

  /** `round` as written, with the wrapping partner. */
  function RoundWrapping(p: Prp, round: nat, x: nat): (y: nat)
    requires p.domain > 0
    ensures x < p.domain ==> y < p.domain
  {
    var partner := PartnerWrapping(DeriveRoundKey(p, round), p.domain, x);
    var canonical := if x < partner then partner else x;
    if PrfBit(p, round, canonical) then partner else x
  }

  /** Below 2^64 the wrapping partner is the intended one. */
  lemma {:induction false} PartnerWrappingAgrees(k: nat, domain: nat, x: nat)
    requires k < domain && k + domain < TWO_POW_64
    ensures PartnerWrapping(k, domain, x) == Partner(k, domain, x)
  {
    WrapAddNoOverflow(k, domain);
    var r := x % domain;
    ModSmall(k + domain - r, TWO_POW_64);
  }

  /** Up to a domain of 2^63 the wrapping computation is the intended one. */
  lemma {:induction false} RoundWrappingAgreesBelow2To63(p: Prp, round: nat, x: nat)
    requires 0 < p.domain <= ROUND_TAG && x < TWO_POW_64
    ensures RoundWrapping(p, round, x) == Round(p, round, x)
  {
    PartnerWrappingAgrees(DeriveRoundKey(p, round), p.domain, x);
  }

  /** A cipher under which one round of the as-written code sends both 0 and
      2^64 - 2 to 0 on the domain 2^64 - 1: round key N - 1 for every round,
      swap bit set only for the canonical value N - 1. */
  function CollidingCipher(hi: nat, lo: nat): nat {
    if hi < ROUND_TAG then U64_MAX - 1
    else if lo == U64_MAX - 1 then 0x100_0000_0000_0000
    else 0
  }

  /** Counterexample: on the domain 2^64 - 1 the as-written round maps two
      distinct values to the same output, so it is not a permutation. */
  lemma RoundWrappingNotInjective()
    ensures var p := Prp(CollidingCipher, U64_MAX, 6);
            RoundWrapping(p, 0, U64_MAX - 1) == 0 && RoundWrapping(p, 0, 0) == 0
  {
    var p := Prp(CollidingCipher, U64_MAX, 6);
    var n := U64_MAX;
    assert DeriveRoundKey(p, 0) == n - 1;
    assert WrapAdd(n - 1, n) == TWO_POW_64 - 3;
    assert PartnerWrapping(n - 1, n, n - 1) == 0;
    assert PrfBit(p, 0, n - 1);
    assert PartnerWrapping(n - 1, n, 0) == TWO_POW_64 - 3;
    assert !PrfBit(p, 0, TWO_POW_64 - 3);
  }
}
