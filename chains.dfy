/**
 * One rainbow chain: a seed plaintext and the hash reached after a fixed number
 * of reduce-then-hash rounds (`RainbowChain`, `RainbowChain::forward`,
 * src/kaleidohash.rs:26-61). Only the two ends are stored; the intermediate
 * hashes and plaintexts are defined here so that replays can be specified.
 */
module Chains {
  import opened Primitives

  /** `RainbowChain { initial, last }` */
  datatype RainbowChain = RainbowChain(initial: seq<Byte>, last: Hash)

  /** The number of reduce-then-hash rounds of a chain of length `chainLen`: `len/2`. */
  function Rounds(chainLen: nat): nat {
    chainLen / 2
  }

  /** One round: `sha1(&reduce(&hash, n))`. */
  function Step(c: Crypto, h: Hash, n: nat): Hash {
    c.sha1(Reduce(c, h, n))
  }

  /** `k` rounds starting from hash `h`, reducing to plaintexts of length `n`. */
  function Iterate(c: Crypto, h: Hash, n: nat, k: nat): Hash
    decreases k
  {
    if k == 0 then h else Step(c, Iterate(c, h, n, k - 1), n)
  }

  /** The hash at position `k` of the chain seeded by `initial`: position 0 is `sha1(initial)`. */
  function ChainHash(c: Crypto, initial: seq<Byte>, n: nat, k: nat): Hash {
    Iterate(c, c.sha1(initial), n, k)
  }

  /** The plaintext at position `k` of the chain: the one whose hash is `ChainHash(.., k)`. */
  function ChainText(c: Crypto, initial: seq<Byte>, n: nat, k: nat): (t: seq<Byte>)
    ensures c.sha1(t) == ChainHash(c, initial, n, k)
    ensures k > 0 ==> |t| == n && IsPlaintext(t)
  {
    if k == 0 then initial else Reduce(c, ChainHash(c, initial, n, k - 1), n)
  }

  /** The hashes the chain seeded by `initial` passes through, positions 0 .. `rounds`. */
  function Trail(c: Crypto, initial: seq<Byte>, n: nat, rounds: nat): (t: seq<Hash>)
    ensures |t| == rounds + 1
    ensures forall k :: 0 <= k <= rounds ==> t[k] == ChainHash(c, initial, n, k)
    decreases rounds
  {
    if rounds == 0 then [c.sha1(initial)]
    else Trail(c, initial, n, rounds - 1) + [ChainHash(c, initial, n, rounds)]
  }

  /** The terminal `forward` stores: `Rounds(chainLen)` rounds, reducing to `|initial|` bytes. */
  function Terminal(c: Crypto, initial: seq<Byte>, chainLen: nat): Hash {
    ChainHash(c, initial, |initial|, Rounds(chainLen))
  }

  /** Running `a` rounds and then `b` more is running `a + b` rounds. */
  lemma {:induction false} IterateAdd(c: Crypto, h: Hash, n: nat, a: nat, b: nat)
    ensures Iterate(c, Iterate(c, h, n, a), n, b) == Iterate(c, h, n, a + b)
    decreases b
  {
    if b > 0 {
      IterateAdd(c, h, n, a, b - 1);
    }
  }

  /**
   * Because `reduce` ignores the position, two chains that meet at any hash,
   * at whatever positions, coincide from there on: a merge at positions
   * `k1`, `k2` is still a merge `d` rounds later.
   */
  lemma MergePropagates(c: Crypto, x: seq<Byte>, y: seq<Byte>, n: nat, k1: nat, k2: nat, d: nat)
    requires ChainHash(c, x, n, k1) == ChainHash(c, y, n, k2)
    ensures ChainHash(c, x, n, k1 + d) == ChainHash(c, y, n, k2 + d)
  {
    IterateAdd(c, c.sha1(x), n, k1, d);
    IterateAdd(c, c.sha1(y), n, k2, d);
  }

  /**
   * `RainbowChain::forward`: hash the seed, then `len/2` times replace the hash by
   * the hash of its reduction. The progress bar and counter are not modelled.
   */
  method Forward(c: Crypto, original: seq<Byte>, len: nat) returns (chain: RainbowChain)
    ensures chain.initial == original
    ensures chain.last == Terminal(c, original, len)
    ensures len < 2 ==> chain.last == c.sha1(original)
  {
    var hash := c.sha1(original);
    for i := 0 to len / 2
      invariant hash == ChainHash(c, original, |original|, i)
    {
      hash := c.sha1(Reduce(c, hash, |original|));
    }
    chain := RainbowChain(original, hash);
  }
}
