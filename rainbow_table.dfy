/**
 * The rainbow table (`RainbowMetadata`, `RainbowTable`, src/kaleidohash.rs:85-272):
 * construction from distinct random seeds, the column and row checks that look a
 * hash up, the duplicate count and the size figures of the printed summary.
 */
module RainbowTables {
  import opened Wrappers
  import opened Primitives
  import opened Chains
  import opened ChainIndex
  import opened Seeds

  /** `RainbowMetadata { chain_len, num_chains, pass_size }` */
  datatype RainbowMetadata = RainbowMetadata(chainLen: nat, numChains: nat, passSize: nat)

  /** The placeholder terminal `[0; HASH_SIZE]` a chain carries before it is computed. */
  const ZeroHash: Hash := seq(HashSize, _ => 0)

  /**
   * The byte count printed by `Display::fmt`: `(HASH_SIZE + pass_size) * num_chains`.
   * The summary's arithmetic is on unbounded integers here.
   */
  function TableBytes(info: RainbowMetadata): nat {
    (HashSize + info.passSize) * info.numChains
  }

  /** The bytes the chains of a table hold: each stores its seed and its 20-byte terminal. */
  function StoredBytes(s: seq<RainbowChain>): nat
    decreases |s|
  {
    if s == [] then 0 else StoredBytes(s[..|s| - 1]) + |s[|s| - 1].initial| + HashSize
  }

  /** The printed size is exactly what a table with that metadata stores. */
  lemma {:induction false} TableBytesIsStorage(s: seq<RainbowChain>, info: RainbowMetadata)
    requires |s| == info.numChains
    requires forall ch :: ch in s ==> |ch.initial| == info.passSize
    ensures StoredBytes(s) == TableBytes(info)
    decreases |s|
  {
    if s != [] {
      var p := s[..|s| - 1];
      assert forall ch :: ch in p ==> ch in s;
      TableBytesIsStorage(p, info.(numChains := |p|));
      assert s[|s| - 1] in s;
    }
  }

  /**
   * The hash count printed by `Display::fmt`: `(chain_len/2) * num_chains`, the
   * number of reduce-then-hash rounds over all chains (`HashCountIsRounds`).
   */
  function HashCount(info: RainbowMetadata): nat {
    Rounds(info.chainLen) * info.numChains
  }

  /** Every hash the chains of `s` pass through, chain after chain. */
  function Trails(c: Crypto, s: seq<RainbowChain>, n: nat, rounds: nat): seq<Hash>
    decreases |s|
  {
    if s == [] then [] else Trails(c, s[..|s| - 1], n, rounds) + Trail(c, s[|s| - 1].initial, n, rounds)
  }

  /** The trails hold `rounds + 1` hashes per chain, and exactly the hashes of the chains' positions. */
  lemma {:induction false} TrailsContents(c: Crypto, s: seq<RainbowChain>, n: nat, rounds: nat)
    ensures |Trails(c, s, n, rounds)| == |s| * (rounds + 1)
    ensures forall h :: h in Trails(c, s, n, rounds) <==>
              exists j, k :: 0 <= j < |s| && 0 <= k <= rounds && ChainHash(c, s[j].initial, n, k) == h
    decreases |s|
  {
    if s != [] {
      var p, last := s[..|s| - 1], s[|s| - 1];
      TrailsContents(c, p, n, rounds);
      var t := Trail(c, last.initial, n, rounds);
      assert |s| * (rounds + 1) == |p| * (rounds + 1) + (rounds + 1);
      forall h | h in Trails(c, s, n, rounds)
        ensures exists j, k :: 0 <= j < |s| && 0 <= k <= rounds && ChainHash(c, s[j].initial, n, k) == h
      {
        if h in t {
          var k :| 0 <= k < |t| && t[k] == h;
          assert ChainHash(c, s[|s| - 1].initial, n, k) == h;
        } else {
          assert h in Trails(c, p, n, rounds);
          var j, k :| 0 <= j < |p| && 0 <= k <= rounds && ChainHash(c, p[j].initial, n, k) == h;
          assert s[j] == p[j];
        }
      }
      forall h, j, k | 0 <= j < |s| && 0 <= k <= rounds && ChainHash(c, s[j].initial, n, k) == h
        ensures h in Trails(c, s, n, rounds)
      {
        if j == |s| - 1 {
          assert t[k] == h;
        } else {
          assert p[j] == s[j];
        }
      }
    }
  }

  class RainbowTable {
    const info: RainbowMetadata
    /** The SHA-1 and reduction every chain and every lookup of this table uses. */
    const crypto: Crypto
    var chains: seq<RainbowChain>

    /** A chain as `new` leaves it: a plaintext seed and the terminal `forward` computes from it. */
    ghost predicate WellFormed(ch: RainbowChain) {
      && |ch.initial| == info.passSize
      && IsPlaintext(ch.initial)
      && ch.last == Terminal(crypto, ch.initial, info.chainLen)
    }

    /** The invariant `new` establishes and the lookups rely on. */
    ghost predicate Valid()
      reads this
    {
      && |chains| == info.numChains
      && (forall ch :: ch in chains ==> WellFormed(ch))
      && DistinctInitials(chains)
      && SortedDesc(chains)
    }

    /** Some chain ends in `h`. */
    ghost predicate IsTerminal(h: Hash)
      reads this
    {
      exists j :: 0 <= j < |chains| && chains[j].last == h
    }

    /** `h` is one of the hashes some chain passes through, its terminal included. */
    ghost predicate Covered(h: Hash)
      reads this
    {
      exists j, k :: 0 <= j < |chains| && 0 <= k <= Rounds(info.chainLen)
                     && ChainHash(crypto, chains[j].initial, info.passSize, k) == h
    }

    /** No other chain ends where chain `j` ends: the binary search can only land on `j`. */
    ghost predicate UniqueTerminal(j: nat)
      reads this
      requires j < |chains|
    {
      forall j' :: 0 <= j' < |chains| && chains[j'].last == chains[j].last ==> j' == j
    }

    /**
     * The row check's i-th hypothesis, "the target sits `i` rounds before the end
     * of a chain", is refuted: the hash `i` rounds on from the target is no
     * terminal, or the chain the binary search lands on never hashes to the
     * target at positions 0 .. chain_len/2 - 1 (a false alarm).
     */
    ghost predicate HypothesisRefuted(target: Hash, i: nat)
      reads this
      requires SortedDesc(chains)
    {
      var hit := Search(chains, Iterate(crypto, target, info.passSize, i));
      hit.Found? ==>
        forall k :: 0 <= k < Rounds(info.chainLen) ==>
          ChainHash(crypto, chains[hit.index].initial, info.passSize, k) != target
    }

    /**
     * The printed hash count is the number of reduce-then-hash rounds: the chains
     * of a table pass through exactly the hashes it covers, `Rounds(chain_len) + 1`
     * per chain, and the figure leaves out the one seed hash of each chain.
     */
    lemma HashCountIsRounds()
      requires Valid()
      ensures |Trails(crypto, chains, info.passSize, Rounds(info.chainLen))| == HashCount(info) + info.numChains
      ensures forall h :: h in Trails(crypto, chains, info.passSize, Rounds(info.chainLen)) <==> Covered(h)
    {
      var R := Rounds(info.chainLen);
      TrailsContents(crypto, chains, info.passSize, R);
      assert |chains| * (R + 1) == R * info.numChains + info.numChains;
    }

    /**
     * `RainbowTable::new(chain_len, num_chains, pass_size)`: draw `num_chains`
     * distinct seeds, run each forward, sort by non-increasing terminal. The
     * retry loop only ends when a fresh seed exists, i.e. when `num_chains` is at
     * most 75^`pass_size`.
     */
    constructor (crypto: Crypto, chainLen: nat, numChains: nat, passSize: nat)
      requires numChains <= Pow(CharsetSize, passSize)
      ensures info == RainbowMetadata(chainLen, numChains, passSize)
      ensures this.crypto == crypto
      ensures Valid()
    {
      info := RainbowMetadata(chainLen, numChains, passSize);
      this.crypto := crypto;
      chains := [];
      new;

      // Keep drawing until the plaintext is one not seen before.
      var initials: set<seq<Byte>> := {};
      for i := 0 to numChains
        invariant |chains| == i && |initials| == i
        invariant forall j :: 0 <= j < i ==> chains[j].initial in initials
        invariant forall ch :: ch in chains ==> |ch.initial| == passSize && IsPlaintext(ch.initial)
        invariant DistinctInitials(chains)
      {
        FreshPlaintextExists(initials, passSize);
        var plaintext :| |plaintext| == passSize && IsPlaintext(plaintext) && plaintext !in initials;
        initials := initials + {plaintext};
        chains := chains + [RainbowChain(plaintext, ZeroHash)];
      }

      // Generate the chains (in parallel in the source; order-preserving map).
      var seeds := chains;
      var computed: seq<RainbowChain> := [];
      for j := 0 to |seeds|
        invariant |computed| == j
        invariant forall k :: 0 <= k < j ==> computed[k].initial == seeds[k].initial
        invariant forall ch :: ch in computed ==> WellFormed(ch)
      {
        var chain := Forward(crypto, seeds[j].initial, chainLen);
        computed := computed + [chain];
      }
      assert DistinctInitials(computed) by {
        forall a, b | 0 <= a < b < |computed|
          ensures computed[a].initial != computed[b].initial
        {
          assert seeds[a].initial != seeds[b].initial;
        }
      }
      chains := computed;

      // Sort chains for binary search.
      SortSorted(chains);
      SortDistinct(chains);
      var sorted := SortByLast(chains);
      assert forall ch :: ch in sorted ==> ch in multiset(chains);
      assert |sorted| == |multiset(sorted)| == |multiset(chains)| == |chains|;
      chains := sorted;
    }

    /**
     * `check_column`: binary-search the target among the terminals and replay the
     * chain that ends in it, returning the plaintext just before its terminal.
     */
    method CheckColumn(target: Hash) returns (r: Option<seq<Byte>>)
      requires Valid()
      ensures r.Some? <==> IsTerminal(target)
      ensures r.Some? ==> crypto.sha1(r.value) == target
      ensures r.Some? ==> |r.value| == info.passSize && IsPlaintext(r.value)
      ensures r.Some? ==> exists j :: 0 <= j < |chains| && chains[j].last == target
                            && r.value == ChainText(crypto, chains[j].initial, info.passSize, Rounds(info.chainLen))
    {
      var a := Search(chains, target);
      if a.Found? {
        var c := a.index;
        assert chains[c] in chains;
        var s := chains[c].initial;
        var hash := crypto.sha1(s);
        for i := 0 to info.chainLen / 2
          invariant hash == ChainHash(crypto, chains[c].initial, info.passSize, i)
          invariant s == ChainText(crypto, chains[c].initial, info.passSize, i)
        {
          s := Reduce(crypto, hash, info.passSize);
          hash := crypto.sha1(s);
        }
        r := Some(s);
      } else {
        r := None;
      }
    }

    /**
     * `check_rows`: for i = 1 .. chain_len/2, roll the target i rounds forward,
     * binary-search the result among the terminals and, on a hit, replay that
     * chain looking for a plaintext that hashes to the target. A replay that never
     * meets the target is a false alarm and the search goes on.
     */
    method CheckRows(target: Hash) returns (r: Option<seq<Byte>>)
      requires Valid()
      ensures r.Some? ==> crypto.sha1(r.value) == target
      ensures r.Some? ==> |r.value| == info.passSize && IsPlaintext(r.value)
      ensures r.Some? ==> exists j, k :: 0 <= j < |chains| && 0 <= k < Rounds(info.chainLen)
                            && r.value == ChainText(crypto, chains[j].initial, info.passSize, k)
      ensures r.None? <==> forall i :: 1 <= i <= Rounds(info.chainLen) ==> HypothesisRefuted(target, i)
    {
      var hash := target;
      for i := 0 to info.chainLen / 2
        invariant hash == Iterate(crypto, target, info.passSize, i)
        invariant forall i' :: 1 <= i' <= i ==> HypothesisRefuted(target, i')
      {
        var text := Reduce(crypto, hash, info.passSize);
        hash := crypto.sha1(text);
        var a := Search(chains, hash);
        if a.Found? {
          // Recompute the matched chain.
          var c := a.index;
          assert chains[c] in chains;
          var text2 := chains[c].initial;
          var hash2 := crypto.sha1(text2);
          for k := 0 to info.chainLen / 2
            invariant hash2 == ChainHash(crypto, chains[c].initial, info.passSize, k)
            invariant text2 == ChainText(crypto, chains[c].initial, info.passSize, k)
            invariant forall k' :: 0 <= k' < k ==> ChainHash(crypto, chains[c].initial, info.passSize, k') != target
          {
            if hash2 == target {
              assert !HypothesisRefuted(target, i + 1);
              r := Some(text2);
              return;
            }
            text2 := Reduce(crypto, hash2, info.passSize);
            hash2 := crypto.sha1(text2);
          }
        }
      }
      r := None;
    }

    /**
     * The row check finds every hash that sits strictly before the end of a
     * chain whose terminal no other chain shares.
     */
    lemma RowCheckComplete(target: Hash, j: nat, k: nat)
      requires Valid()
      requires j < |chains| && k < Rounds(info.chainLen)
      requires UniqueTerminal(j)
      requires ChainHash(crypto, chains[j].initial, info.passSize, k) == target
      ensures !HypothesisRefuted(target, Rounds(info.chainLen) - k)
    {
      var L := Rounds(info.chainLen);
      var init := chains[j].initial;
      assert chains[j] in chains;
      IterateAdd(crypto, crypto.sha1(init), info.passSize, k, L - k);
      assert Iterate(crypto, target, info.passSize, L - k) == chains[j].last;
      var hit := Search(chains, chains[j].last);
      assert hit.index == j;
    }

    /**
     * `lookup`: the column check's answer if it has one, otherwise the row check's.
     * Whatever it returns hashes to the target; it misses only when the target is
     * no terminal and every row hypothesis is refuted; and it finds every hash
     * on a chain whose terminal no other chain shares, so with no merged chains
     * it finds every hash the table covers.
     */
    method Lookup(target: Hash) returns (r: Option<seq<Byte>>)
      requires Valid()
      ensures r.Some? ==> crypto.sha1(r.value) == target
      ensures r.Some? ==> |r.value| == info.passSize && IsPlaintext(r.value)
      ensures r.None? <==>
        !IsTerminal(target) && forall i :: 1 <= i <= Rounds(info.chainLen) ==> HypothesisRefuted(target, i)
      ensures forall j, k ::
                (0 <= j < |chains| && 0 <= k <= Rounds(info.chainLen)
                 && ChainHash(crypto, chains[j].initial, info.passSize, k) == target
                 && UniqueTerminal(j))
                ==> r.Some?
      ensures DistinctTerminals(chains) && Covered(target) ==> r.Some?
    {
      r := CheckColumn(target);
      if r.None? {
        r := CheckRows(target);
      }
      forall j, k | 0 <= j < |chains| && 0 <= k <= Rounds(info.chainLen)
                    && ChainHash(crypto, chains[j].initial, info.passSize, k) == target
                    && UniqueTerminal(j)
        ensures r.Some?
      {
        assert chains[j] in chains;
        if k < Rounds(info.chainLen) {
          RowCheckComplete(target, j, k);
        } else {
          assert chains[j].last == target;
        }
      }
      if DistinctTerminals(chains) && Covered(target) {
        var j, k :| 0 <= j < |chains| && 0 <= k <= Rounds(info.chainLen)
                    && ChainHash(crypto, chains[j].initial, info.passSize, k) == target;
        assert UniqueTerminal(j);
      }
    }

    /**
     * `duplicates`: the number of chains whose terminal repeats that of an earlier
     * chain, counted by inserting every terminal into a set.
     */
    method Duplicates() returns (d: nat)
      ensures d == |chains| - |Terminals(chains)|
      ensures d <= |chains|
      ensures d == 0 <==> DistinctTerminals(chains)
      ensures SortedDesc(chains) ==> d == AdjacentRepeats(chains)
    {
      var seen: set<Hash> := {};
      d := 0;
      for i := 0 to |chains|
        invariant seen == Terminals(chains[..i])
        invariant d + |seen| == i
      {
        assert chains[..i + 1][..i] == chains[..i];
        if chains[i].last in seen {
          d := d + 1;
          assert seen + {chains[i].last} == seen;
        }
        seen := seen + {chains[i].last};
      }
      assert chains[..|chains|] == chains;
      TerminalsCount(chains);
      if SortedDesc(chains) {
        RepeatsAreAdjacent(chains);
      }
    }
  }
}
