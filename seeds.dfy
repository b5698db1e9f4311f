/**
 * The plaintext space behind seed sampling (src/kaleidohash.rs:124-137): there
 * are 75^n plaintexts of length n, so while fewer than that many seeds have been
 * drawn a fresh one exists and the retry loop can end.
 */
module Seeds {
  import opened Primitives

  function Pow(b: nat, e: nat): nat
    decreases e
  {
    if e == 0 then 1 else b * Pow(b, e - 1)
  }

  /** The plaintext of length `n` whose base-75 digits, least significant first, are those of `k`. */
  function Spell(k: nat, n: nat): (s: seq<Byte>)
    ensures |s| == n && IsPlaintext(s)
    decreases n
  {
    if n == 0 then []
    else
      [Symbol(k % CharsetSize)] + Spell(k / CharsetSize, n - 1)
  }

  /** Distinct numbers below 75^n spell distinct plaintexts. */
  lemma {:induction false} SpellInjective(k1: nat, k2: nat, n: nat)
    requires k1 < Pow(CharsetSize, n) && k2 < Pow(CharsetSize, n)
    requires Spell(k1, n) == Spell(k2, n)
    ensures k1 == k2
    decreases n
  {
    if n > 0 {
      var s1, s2 := Spell(k1, n), Spell(k2, n);
      assert s1[0] == s2[0];
      assert Symbol(k1 % CharsetSize) == Symbol(k2 % CharsetSize);
      assert s1[1..] == Spell(k1 / CharsetSize, n - 1);
      assert s2[1..] == Spell(k2 / CharsetSize, n - 1);
      SpellInjective(k1 / CharsetSize, k2 / CharsetSize, n - 1);
    }
  }

  /** The plaintexts spelled by 0 .. m-1. */
  function Enumerated(m: nat, n: nat): set<seq<Byte>>
    decreases m
  {
    if m == 0 then {} else Enumerated(m - 1, n) + {Spell(m - 1, n)}
  }

  /** `x` is spelled by some number below `m`. */
  ghost predicate SpelledBelow(x: seq<Byte>, m: nat, n: nat) {
    exists k: nat :: k < m && x == Spell(k, n)
  }

  lemma {:induction false} EnumeratedMembers(m: nat, n: nat)
    ensures forall x :: x in Enumerated(m, n) ==> SpelledBelow(x, m, n)
    decreases m
  {
    if m > 0 {
      EnumeratedMembers(m - 1, n);
      forall x | x in Enumerated(m, n)
        ensures SpelledBelow(x, m, n)
      {
        if x == Spell(m - 1, n) {
          assert m - 1 < m;
        } else {
          assert SpelledBelow(x, m - 1, n);
          var k: nat :| k < m - 1 && x == Spell(k, n);
        }
      }
    }
  }

  lemma {:induction false} EnumeratedCount(m: nat, n: nat)
    requires m <= Pow(CharsetSize, n)
    ensures |Enumerated(m, n)| == m
    decreases m
  {
    if m > 0 {
      EnumeratedCount(m - 1, n);
      EnumeratedMembers(m - 1, n);
      if Spell(m - 1, n) in Enumerated(m - 1, n) {
        assert SpelledBelow(Spell(m - 1, n), m - 1, n);
        var k: nat :| k < m - 1 && Spell(m - 1, n) == Spell(k, n);
        SpellInjective(m - 1, k, n);
      }
    }
  }

  lemma {:induction false} SubsetCount<T>(a: set<T>, b: set<T>)
    requires a <= b
    ensures |a| <= |b|
    decreases |a|
  {
    if a != {} {
      var x :| x in a;
      SubsetCount(a - {x}, b - {x});
    }
  }

  /**
   * While fewer than 75^n seeds are in use, some plaintext of length n over the
   * alphabet is not among them: the condition under which the retry loop in
   * `RainbowTable::new` can succeed.
   */
  lemma FreshPlaintextExists(used: set<seq<Byte>>, n: nat)
    requires |used| < Pow(CharsetSize, n)
    ensures exists s :: |s| == n && IsPlaintext(s) && s !in used
  {
    var all := Enumerated(Pow(CharsetSize, n), n);
    EnumeratedCount(Pow(CharsetSize, n), n);
    EnumeratedMembers(Pow(CharsetSize, n), n);
    if all <= used {
      SubsetCount(all, used);
    }
    var s :| s in all && s !in used;
    assert SpelledBelow(s, Pow(CharsetSize, n), n);
  }
}
