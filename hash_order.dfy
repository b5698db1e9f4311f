/**
 * The total order on hashes used to sort the chains and to binary-search them:
 * Rust's `Ord` for byte arrays, which compares lexicographically.
 */
module HashOrder {
  import opened Primitives

  datatype Ordering = Less | Equal | Greater

  function Flip(o: Ordering): Ordering {
    match o
    case Less => Greater
    case Equal => Equal
    case Greater => Less
  }

  /** `a.cmp(&b)`: the first differing byte decides; a proper prefix comes first. */
  function Cmp(a: seq<Byte>, b: seq<Byte>): Ordering
    decreases |a|
  {
    if a == [] && b == [] then Equal
    else if a == [] then Less
    else if b == [] then Greater
    else if a[0] < b[0] then Less
    else if a[0] > b[0] then Greater
    else Cmp(a[1..], b[1..])
  }

  /** `a <= b` in that order. */
  predicate Le(a: seq<Byte>, b: seq<Byte>) {
    Cmp(a, b) != Greater
  }

  /** The comparison reports `Equal` exactly for equal byte strings. */
  lemma {:induction false} CmpEqual(a: seq<Byte>, b: seq<Byte>)
    ensures Cmp(a, b) == Equal <==> a == b
    decreases |a|
  {
    if a != [] && b != [] && a[0] == b[0] {
      CmpEqual(a[1..], b[1..]);
      assert a == [a[0]] + a[1..] && b == [b[0]] + b[1..];
    }
  }

  /** Swapping the operands flips the outcome (antisymmetry). */
  lemma {:induction false} CmpFlip(a: seq<Byte>, b: seq<Byte>)
    ensures Cmp(b, a) == Flip(Cmp(a, b))
    decreases |a|
  {
    if a != [] && b != [] && a[0] == b[0] {
      CmpFlip(a[1..], b[1..]);
    }
  }

  /** Transitivity, with the result strict as soon as one step is strict. */
  lemma {:induction false} CmpTrans(a: seq<Byte>, b: seq<Byte>, c: seq<Byte>)
    ensures Le(a, b) && Le(b, c) ==> Le(a, c)
    ensures Cmp(a, b) == Less && Le(b, c) ==> Cmp(a, c) == Less
    ensures Le(a, b) && Cmp(b, c) == Less ==> Cmp(a, c) == Less
    decreases |a|
  {
    if a != [] && b != [] && c != [] && a[0] == b[0] == c[0] {
      CmpTrans(a[1..], b[1..], c[1..]);
    }
  }
}
