/**
 * The ordered index over the chains: the table keeps them sorted by
 * NON-INCREASING terminal (`sort_by(|a,b| b.last.cmp(&a.last))`,
 * src/kaleidohash.rs:154) and looks terminals up with `binary_search_by` and the
 * reversed comparator `key.cmp(&chain.last)` (src/kaleidohash.rs:171, :203).
 * Both are Rust standard-library routines; here they get bodies of their own
 * and their documented contracts are proved.
 */
module ChainIndex {
  import opened Primitives
  import opened HashOrder
  import opened Chains

  /** Sorted by non-increasing `last`: a later chain's terminal is never above an earlier one's. */
  ghost predicate SortedDesc(s: seq<RainbowChain>) {
    forall i, j :: 0 <= i < j < |s| ==> Le(s[j].last, s[i].last)
  }

  /** No two chains start from the same seed. */
  ghost predicate DistinctInitials(s: seq<RainbowChain>) {
    forall i, j :: 0 <= i < j < |s| ==> s[i].initial != s[j].initial
  }

  /** No two chains end in the same terminal (no merges). */
  ghost predicate DistinctTerminals(s: seq<RainbowChain>) {
    forall i, j :: 0 <= i < j < |s| ==> s[i].last != s[j].last
  }

  // ---------------------------------------------------------------- searching

  /** Rust's `Result<usize, usize>` from `binary_search_by`: a hit, or the insertion point. */
  datatype SearchResult = Found(index: nat) | NotFound(insertAt: nat)

  /** Every chain below `lo` has a terminal above `key`; every chain from `hi` on, one below it. */
  ghost predicate Bracketed(s: seq<RainbowChain>, key: Hash, lo: nat, hi: nat) {
    && (forall j :: 0 <= j < lo && j < |s| ==> Cmp(key, s[j].last) == Less)
    && (forall j :: hi <= j < |s| ==> Cmp(key, s[j].last) == Greater)
  }

  /** In a descending sequence, a key below `s[mid].last` is below every earlier terminal. */
  lemma BelowEarlier(s: seq<RainbowChain>, key: Hash, mid: nat)
    requires SortedDesc(s) && mid < |s|
    requires Cmp(key, s[mid].last) == Less
    ensures forall j :: 0 <= j <= mid ==> Cmp(key, s[j].last) == Less
  {
    forall j | 0 <= j <= mid
      ensures Cmp(key, s[j].last) == Less
    {
      if j < mid {
        CmpTrans(key, s[mid].last, s[j].last);
      }
    }
  }

  /** In a descending sequence, a key above `s[mid].last` is above every later terminal. */
  lemma AboveLater(s: seq<RainbowChain>, key: Hash, mid: nat)
    requires SortedDesc(s) && mid < |s|
    requires Cmp(key, s[mid].last) == Greater
    ensures forall j :: mid <= j < |s| ==> Cmp(key, s[j].last) == Greater
  {
    forall j | mid <= j < |s|
      ensures Cmp(key, s[j].last) == Greater
    {
      if mid < j {
        CmpFlip(key, s[mid].last);
        CmpFlip(key, s[j].last);
        CmpTrans(s[j].last, s[mid].last, key);
      }
    }
  }

  /** `binary_search_by` on the half-open window `[lo, hi)`, the outside already bracketed. */
  function SearchRange(s: seq<RainbowChain>, key: Hash, lo: nat, hi: nat): (r: SearchResult)
    requires lo <= hi <= |s|
    requires SortedDesc(s)
    requires Bracketed(s, key, lo, hi)
    ensures r.Found? ==> lo <= r.index < hi && s[r.index].last == key
    ensures r.NotFound? ==> lo <= r.insertAt <= hi && Bracketed(s, key, r.insertAt, r.insertAt)
    decreases hi - lo
  {
    if lo == hi then NotFound(lo)
    else
      var mid := lo + (hi - lo) / 2;
      match Cmp(key, s[mid].last)
      case Less =>
        BelowEarlier(s, key, mid);
        SearchRange(s, key, mid + 1, hi)
      case Greater =>
        AboveLater(s, key, mid);
        SearchRange(s, key, lo, mid)
      case Equal =>
        CmpEqual(key, s[mid].last);
        Found(mid)
  }

  /**
   * `chains.binary_search_by(|i| key.cmp(&i.last))` on chains sorted by
   * non-increasing terminal: it finds a chain exactly when some chain ends in
   * `key`, and otherwise reports where `key` would be inserted.
   */
  function Search(s: seq<RainbowChain>, key: Hash): (r: SearchResult)
    requires SortedDesc(s)
    ensures r.Found? <==> exists j :: 0 <= j < |s| && s[j].last == key
    ensures r.Found? ==> r.index < |s| && s[r.index].last == key
    ensures r.NotFound? ==> r.insertAt <= |s| && Bracketed(s, key, r.insertAt, r.insertAt)
  {
    var r := SearchRange(s, key, 0, |s|);
    CmpEqual(key, key);
    r
  }

  // ----------------------------------------------------------------- sorting

  /** Insert `x` before the first chain whose terminal is not above `x.last`. */
  function InsertByLast(x: RainbowChain, s: seq<RainbowChain>): (r: seq<RainbowChain>)
    ensures multiset(r) == multiset(s) + multiset{x}
    decreases |s|
  {
    if s == [] then [x]
    else if Le(s[0].last, x.last) then [x] + s
    else
      assert s == [s[0]] + s[1..];
      [s[0]] + InsertByLast(x, s[1..])
  }

  /** `sort_by(|a, b| b.last.cmp(&a.last))` as a stable insertion sort. */
  function SortByLast(s: seq<RainbowChain>): (r: seq<RainbowChain>)
    ensures multiset(r) == multiset(s)
    decreases |s|
  {
    if s == [] then []
    else
      assert s == [s[0]] + s[1..];
      InsertByLast(s[0], SortByLast(s[1..]))
  }

  lemma {:induction false} InsertSorted(x: RainbowChain, s: seq<RainbowChain>)
    requires SortedDesc(s)
    ensures SortedDesc(InsertByLast(x, s))
    decreases |s|
  {
    if s == [] {
    } else if Le(s[0].last, x.last) {
      var r := InsertByLast(x, s);
      forall i, j | 0 <= i < j < |r|
        ensures Le(r[j].last, r[i].last)
      {
        if i == 0 {
          CmpTrans(s[j - 1].last, s[0].last, x.last);
        }
      }
    } else {
      InsertSorted(x, s[1..]);
      CmpFlip(s[0].last, x.last);
      var t := InsertByLast(x, s[1..]);
      var r := [s[0]] + t;
      forall j | 0 <= j < |t|
        ensures Le(t[j].last, s[0].last)
      {
        assert t[j] in multiset(s[1..]) + multiset{x};
        if t[j] != x {
          var k :| 1 <= k < |s| && s[k] == t[j];
        }
      }
      forall i, j | 0 <= i < j < |r|
        ensures Le(r[j].last, r[i].last)
      {
        if i > 0 {
          assert r[i] == t[i - 1] && r[j] == t[j - 1];
        }
      }
    }
  }

  /** The sort leaves the chains in non-increasing order of terminal. */
  lemma {:induction false} SortSorted(s: seq<RainbowChain>)
    ensures SortedDesc(SortByLast(s))
    decreases |s|
  {
    if s != [] {
      SortSorted(s[1..]);
      InsertSorted(s[0], SortByLast(s[1..]));
    }
  }

  lemma {:induction false} InsertDistinct(x: RainbowChain, s: seq<RainbowChain>)
    requires DistinctInitials(s)
    requires forall y :: y in s ==> y.initial != x.initial
    ensures DistinctInitials(InsertByLast(x, s))
    decreases |s|
  {
    if s != [] && !Le(s[0].last, x.last) {
      InsertDistinct(x, s[1..]);
      var t := InsertByLast(x, s[1..]);
      forall y | y in t
        ensures y.initial != s[0].initial
      {
        assert y in multiset(s[1..]) + multiset{x};
      }
    }
  }

  /** Sorting moves chains around but never makes two of them share a seed. */
  lemma {:induction false} SortDistinct(s: seq<RainbowChain>)
    requires DistinctInitials(s)
    ensures DistinctInitials(SortByLast(s))
    decreases |s|
  {
    if s != [] {
      SortDistinct(s[1..]);
      var t := SortByLast(s[1..]);
      forall y | y in t
        ensures y.initial != s[0].initial
      {
        assert y in multiset(s[1..]);
      }
      InsertDistinct(s[0], t);
    }
  }

  // ------------------------------------------------------------ terminal set

  /** The set of terminals of `s`, collected front to back as `duplicates` does. */
  function Terminals(s: seq<RainbowChain>): set<Hash>
    decreases |s|
  {
    if s == [] then {} else Terminals(s[..|s| - 1]) + {s[|s| - 1].last}
  }

  lemma {:induction false} TerminalsMembers(s: seq<RainbowChain>)
    ensures forall h :: h in Terminals(s) <==> exists j :: 0 <= j < |s| && s[j].last == h
    decreases |s|
  {
    if s != [] {
      var p := s[..|s| - 1];
      TerminalsMembers(p);
      assert forall j :: 0 <= j < |p| ==> p[j] == s[j];
    }
  }

  /**
   * There are at most as many distinct terminals as chains, and exactly as many
   * when no two chains end in the same terminal.
   */
  lemma {:induction false} TerminalsCount(s: seq<RainbowChain>)
    ensures |Terminals(s)| <= |s|
    ensures |Terminals(s)| == |s| <==> DistinctTerminals(s)
    decreases |s|
  {
    if s != [] {
      var p := s[..|s| - 1];
      var x := s[|s| - 1].last;
      TerminalsCount(p);
      TerminalsMembers(p);
      assert forall j :: 0 <= j < |p| ==> p[j] == s[j];
      if x in Terminals(p) {
        var j :| 0 <= j < |p| && p[j].last == x;
        assert !DistinctTerminals(s) by {
          assert s[j].last == s[|s| - 1].last;
        }
      } else {
        if DistinctTerminals(p) {
          forall i, j | 0 <= i < j < |s|
            ensures s[i].last != s[j].last
          {
            if j < |s| - 1 {
              assert p[i] == s[i] && p[j] == s[j];
            }
          }
        }
      }
    }
  }

  /** The number of chains whose terminal equals that of the chain just before it. */
  function AdjacentRepeats(s: seq<RainbowChain>): nat
    decreases |s|
  {
    if |s| < 2 then 0
    else AdjacentRepeats(s[..|s| - 1]) + (if s[|s| - 1].last == s[|s| - 2].last then 1 else 0)
  }

  /** In descending order, a terminal equal to an earlier one equals its neighbour's. */
  lemma NeighbourRepeat(s: seq<RainbowChain>, j: nat)
    requires SortedDesc(s) && j < |s| - 1
    requires s[j].last == s[|s| - 1].last
    ensures s[|s| - 2].last == s[|s| - 1].last
  {
    var x, y := s[|s| - 1].last, s[|s| - 2].last;
    if j < |s| - 2 {
      // x <= y <= s[j].last == x
      CmpFlip(x, y);
      CmpTrans(y, s[j].last, x);
      CmpEqual(x, y);
    }
  }

  /**
   * In chains sorted by terminal, a terminal repeats an earlier one exactly when
   * it repeats its neighbour's, so the set-based duplicate count equals the
   * number of equal neighbours.
   */
  lemma {:induction false} RepeatsAreAdjacent(s: seq<RainbowChain>)
    requires SortedDesc(s)
    ensures |s| - |Terminals(s)| == AdjacentRepeats(s)
    decreases |s|
  {
    if s != [] {
      var p := s[..|s| - 1];
      var x := s[|s| - 1].last;
      assert SortedDesc(p) by {
        assert forall j :: 0 <= j < |p| ==> p[j] == s[j];
      }
      RepeatsAreAdjacent(p);
      TerminalsCount(p);
      if |s| >= 2 && x in Terminals(p) {
        TerminalsMembers(p);
        var j :| 0 <= j < |p| && p[j].last == x;
        NeighbourRepeat(s, j);
        assert Terminals(s) == Terminals(p);
      } else if |s| >= 2 {
        assert p[|s| - 2] == s[|s| - 2];
        assert s[|s| - 2].last != x;
      }
    }
  }
}
