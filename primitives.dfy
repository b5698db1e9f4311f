/**
 * Bytes, hashes, the 75-symbol plaintext alphabet and the reduction function
 * (src/kaleidohash.rs:12-24 and :78-83).
 *
 * SHA-1 and the hash-seeded pseudo-random generator behind `reduce` are foreign
 * code: the model takes them as the two total functions of a `Crypto` value, so
 * every property below holds whatever those functions are.
 */
module Primitives {

  /** Width of a SHA-1 digest in bytes (`HASH_SIZE`). */
  const HashSize: nat := 20

  type Byte = x: int | 0 <= x < 256

  /** `[u8; HASH_SIZE]` */
  type Hash = h: seq<Byte> | |h| == HashSize witness seq(20, _ => 0)

  /** Number of symbols in the alphabet sampled by `Charset`. */
  const CharsetSize: nat := 75

  /** Index of a symbol in the alphabet: what one uniform `choose` draws. */
  type CharIndex = i: nat | i < CharsetSize

  /** The symbol at index `i` of the alphabet. */
  function Symbol(i: CharIndex): Byte {
    48 + i
  }

  /** The string literal `Charset::sample` picks from, written here in pieces. */
  const CharsetText: string :=
    "0123456789" + ":;<=>?@" + "ABCDEFGHIJ" + "KLMNOPQRST" + "UVWXYZ"
    + "[\\]^_`" + "abcdefghij" + "klmnopqrst" + "uvwxyz"

  /** `c as u8` for an ASCII character: its code. Every character of `CharsetText` is ASCII. */
  function AsciiByte(c: char): Byte {
    if c as int < 128 then c as int else 0
  }

  /** `CharsetText.into_bytes()`: the bytes the generator samples from. */
  const Charset: seq<Byte> := seq(|CharsetText|, i requires 0 <= i < |CharsetText| => AsciiByte(CharsetText[i]))

  /** A byte of the alphabet: '0' (48) to 'z' (122). */
  predicate InCharset(b: Byte) {
    48 <= b <= 122
  }

  /** Every byte of `s` is drawn from the alphabet. */
  predicate IsPlaintext(s: seq<Byte>) {
    forall i :: 0 <= i < |s| ==> InCharset(s[i])
  }

  /**
   * The foreign primitives: `sha1` (openssl) and `draw(h, i)`, the alphabet index
   * picked by the i-th sample of the Pcg64 generator seeded from hash `h`.
   */
  datatype Crypto = Crypto(sha1: seq<Byte> -> Hash, draw: (Hash, nat) -> CharIndex)

  /**
   * `reduce(hash, pass_size)`: the first `n` samples of the generator seeded from
   * `h`, each mapped to its symbol. There is no position argument.
   */
  function Reduce(c: Crypto, h: Hash, n: nat): (r: seq<Byte>)
    ensures |r| == n && IsPlaintext(r)
  {
    var r := seq(n, i requires 0 <= i < n => Symbol(c.draw(h, i)));
    assert forall i :: 0 <= i < n ==> r[i] == Symbol(c.draw(h, i));
    r
  }

  /** The characters of `s` are the consecutive codes `start`, `start + 1`, ... */
  ghost predicate CodeRun(s: string, start: int) {
    forall k :: 0 <= k < |s| ==> s[k] as int == start + k
  }

  /**
   * The sampled alphabet is exactly the bytes '0'..'z', each once, in the order
   * `Symbol` numbers them.
   */
  lemma CharsetMembers()
    ensures |Charset| == CharsetSize
    ensures forall i: CharIndex :: Charset[i] == Symbol(i)
    ensures forall b: Byte :: b in Charset <==> InCharset(b)
    ensures forall i, j :: 0 <= i < j < |Charset| ==> Charset[i] != Charset[j]
  {
    assert CodeRun("0123456789", 48);
    assert CodeRun(":;<=>?@", 58);
    assert CodeRun("ABCDEFGHIJ", 65);
    assert CodeRun("KLMNOPQRST", 75);
    assert CodeRun("UVWXYZ", 85);
    assert CodeRun("[\\]^_`", 91);
    assert CodeRun("abcdefghij", 97);
    assert CodeRun("klmnopqrst", 107);
    assert CodeRun("uvwxyz", 117);
    assert CodeRun(CharsetText, 48);
    forall b: Byte | InCharset(b)
      ensures b in Charset
    {
      assert Charset[b - 48] == Symbol(b - 48) == b;
    }
  }

  /** Reducing the same hash to a shorter length gives a prefix: one generator stream. */
  lemma ReducePrefix(c: Crypto, h: Hash, n: nat, m: nat)
    requires n <= m
    ensures Reduce(c, h, n) == Reduce(c, h, m)[..n]
  {
  }
}
