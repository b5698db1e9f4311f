# kaleidohash rainbow table, modelled in Dafny

kaleidohash builds a rainbow table for SHA-1 over short plaintexts drawn from a
75-symbol alphabet (`'0'` to `'z'`), and uses it to invert hashes. This project
models the engine in `src/kaleidohash.rs`:

- **Chains.** A chain is hash-the-seed, then `chain_len/2` rounds of
  "reduce the hash to a plaintext, hash that". Only `(initial, last)` is stored
  (`Chains`).
- **Construction.** `RainbowTable::new` draws `num_chains` distinct seeds, runs
  each forward and sorts the chains by **non-increasing** terminal
  (`RainbowTables.RainbowTable.constructor`, `ChainIndex`, `Seeds`).
- **Two-phase lookup.** `check_column` binary-searches the target among the
  terminals and replays the chain it finds. `check_rows` rolls the target
  forward 1 .. `chain_len/2` rounds and binary-searches each result. On a hit it
  replays that chain and returns a plaintext only if its hash is the target;
  otherwise the hit was a false alarm and the search goes on. `lookup` tries
  the column check first, then the row check.
- **Diagnostics.** `duplicates` counts terminals that repeat an earlier one.
  `Display::fmt` prints a byte count and a hash count.

SHA-1 and the pseudo-random generator that `reduce` seeds from a hash are
foreign code. They are parameters: a `Crypto` value holds a total function
`sha1` with 20-byte results and a function `draw(h, i)`. `draw(h, i)` is the
alphabet index picked by the i-th sample of the generator seeded from `h`. Every
result below holds for every such pair of functions.

Central results:
- Whatever `Lookup` returns hashes to the target.
- `Lookup` returns nothing only when the target is no terminal and every row
  hypothesis is refuted.
- `Lookup` finds every hash on a chain whose terminal no other chain shares.
  If no two chains share a terminal, it finds every hash the table covers.

Details of the code that the model keeps as written:
- A chain has `chain_len/2` rounds, not `chain_len` (src/kaleidohash.rs:51,
  :176, :200, :208).
- `reduce` takes no position argument. Two chains that meet at any positions
  therefore merge from there on (`Chains.MergePropagates`).
- Chains are sorted in descending order of terminal, and the binary-search
  comparator is reversed to match (src/kaleidohash.rs:154, :171, :203).
- When `num_chains` exceeds the 75^`pass_size` possible seeds, the seed loop
  never ends; nothing reports an error. The model states the bound as the
  constructor's precondition.
- The doc comment of `reduce` says it panics for `pass_size > HASH_SIZE`. The
  code has no such path, and the model has none either.
- `forward` reduces to `original.len()` bytes. The lookups reduce to
  `info.pass_size` bytes. These agree because every seed has length `pass_size`,
  which is part of the table invariant `Valid`.

## Model

| member | source | states |
|---|---|---|
| `Primitives.Reduce` | src/kaleidohash.rs:78-83 | the reduction of a hash to `n` bytes has exactly `n` bytes, each from the alphabet `'0'..'z'` |
| `Primitives.CharsetMembers` | src/kaleidohash.rs:19-23 | the bytes of the literal `Charset::sample` picks from are 75 distinct symbols, exactly the bytes `'0'` (48) to `'z'` (122), and the i-th of them is `Symbol(i)`, the byte `Reduce` and the seeds use for index i |
| `Primitives.ReducePrefix` | src/kaleidohash.rs:79-82 | reducing one hash to a shorter length gives a prefix of the longer reduction (one generator stream, cut by `take`) |
| `HashOrder.CmpEqual` | src/kaleidohash.rs:171 | the byte-array comparison reports `Equal` exactly when the two hashes are equal |
| `HashOrder.CmpFlip` | src/kaleidohash.rs:154 | swapping the operands of the comparison flips its result, which is why `b.last.cmp(&a.last)` sorts in descending order |
| `HashOrder.CmpTrans` | src/kaleidohash.rs:154 | the comparison is transitive, strictly so when one step is strict |
| `Chains.Forward` | src/kaleidohash.rs:49-60 | keeps `initial`; `last` is `sha1(initial)` followed by `len/2` rounds of hash-of-reduce to `|initial|` bytes; for `len < 2` it is `sha1(initial)` |
| `Chains.ChainText` | src/kaleidohash.rs:174-179 | the plaintext at position k of a chain hashes to the chain's k-th hash and, past the seed, is an alphabet string of the reduce length |
| `Chains.Trail` | src/kaleidohash.rs:50-53 | a chain of `r` rounds passes through `r + 1` hashes, and the k-th of them is the chain's hash at position k |
| `Chains.IterateAdd` | src/kaleidohash.rs:51-53 | running a rounds and then b rounds is running a + b rounds |
| `Chains.MergePropagates` | src/kaleidohash.rs:52 | because `reduce` ignores the position, two chains that share a hash at positions k1 and k2 share the hash at k1 + d and k2 + d |
| `ChainIndex.SearchRange` | src/kaleidohash.rs:171 | binary search on a bracketed window returns a hit whose terminal is the key, or an insertion point with every earlier terminal above the key and every later one below |
| `ChainIndex.Search` | src/kaleidohash.rs:203 | on chains sorted by non-increasing terminal, the search hits if and only if some chain ends in the key, and a hit's terminal is the key |
| `ChainIndex.InsertByLast` | src/kaleidohash.rs:154 | inserting a chain adds exactly that chain to the multiset of chains |
| `ChainIndex.SortByLast` | src/kaleidohash.rs:154 | sorting is a permutation of the chains |
| `ChainIndex.InsertSorted` | src/kaleidohash.rs:154 | inserting into a descending sequence keeps it descending |
| `ChainIndex.SortSorted` | src/kaleidohash.rs:154 | the sorted chains are in non-increasing order of terminal |
| `ChainIndex.SortDistinct` | src/kaleidohash.rs:144-154 | sorting never makes two chains share a seed |
| `ChainIndex.TerminalsMembers` | src/kaleidohash.rs:247-253 | the set that `duplicates` fills holds exactly the terminals of the chains |
| `ChainIndex.TerminalsCount` | src/kaleidohash.rs:246-255 | there are at most as many distinct terminals as chains, and exactly as many if and only if no two chains share a terminal |
| `ChainIndex.RepeatsAreAdjacent` | src/kaleidohash.rs:246-255 | on sorted chains, the number of repeated terminals equals the number of chains whose terminal equals its neighbour's |
| `Seeds.SpellInjective` | src/kaleidohash.rs:127-130 | distinct numbers below 75^n spell distinct plaintexts of length n |
| `Seeds.EnumeratedCount` | src/kaleidohash.rs:127-130 | the numbers 0 .. m-1, for any m up to 75^n, spell m distinct alphabet strings of length n |
| `Seeds.FreshPlaintextExists` | src/kaleidohash.rs:126-136 | while fewer than 75^n seeds are in use, an unused alphabet string of length n exists, so the retry loop can end |
| `RainbowTables.TableBytes` | src/kaleidohash.rs:263 | the printed byte count `(HASH_SIZE + pass_size) * num_chains`, on unbounded integers; `TableBytesIsStorage` states what it means |
| `RainbowTables.TableBytesIsStorage` | src/kaleidohash.rs:263 | the printed byte count `(HASH_SIZE + pass_size) * num_chains` is what the table's chains store |
| `RainbowTables.HashCount` | src/kaleidohash.rs:271 | the printed hash count `(chain_len/2) * num_chains`, on unbounded integers; `HashCountIsRounds` states what it means |
| `RainbowTables.TrailsContents` | src/kaleidohash.rs:50-53 | the hashes all chains pass through number `rounds + 1` per chain and are exactly the hashes at positions 0 .. `rounds` of some chain |
| `RainbowTables.RainbowTable.HashCountIsRounds` | src/kaleidohash.rs:271 | on a valid table, the printed hash count `(chain_len/2) * num_chains` plus one seed hash per chain is the number of hashes the chains pass through, and those are exactly the hashes the table covers |
| `RainbowTables.RainbowTable.constructor` | src/kaleidohash.rs:113-156 | yields exactly `num_chains` chains with pairwise distinct seeds of length `pass_size` over the alphabet, each terminal the `forward` of its seed, in non-increasing order of terminal |
| `RainbowTables.RainbowTable.CheckColumn` | src/kaleidohash.rs:169-183 | returns a plaintext if and only if the target is some chain's terminal; that plaintext is the one just before the terminal of such a chain, hashes to the target, and is an alphabet string of length `pass_size` |
| `RainbowTables.RainbowTable.CheckRows` | src/kaleidohash.rs:196-218 | a returned plaintext is one of a stored chain's first `chain_len/2` plaintexts and hashes to the target; it returns nothing if and only if every hypothesis i = 1 .. `chain_len/2` is refuted (no terminal, or a false alarm) |
| `RainbowTables.RainbowTable.RowCheckComplete` | src/kaleidohash.rs:200-214 | a target at position k < `chain_len/2` of a chain whose terminal no other chain shares survives hypothesis `chain_len/2 - k` |
| `RainbowTables.RainbowTable.Lookup` | src/kaleidohash.rs:231-237 | whatever it returns hashes to the target; it returns nothing exactly when the target is no terminal and every row hypothesis is refuted; it finds every hash on a chain whose terminal no other chain shares, hence every covered hash when no terminal is shared |
| `RainbowTables.RainbowTable.Duplicates` | src/kaleidohash.rs:246-255 | the count equals the number of chains minus the number of distinct terminals, is at most the number of chains, is zero if and only if all terminals differ, and on sorted chains equals the number of equal neighbours |

## Left out

- SHA-1 (`openssl::sha::sha1`) is a parameter with 20-byte results; its internals are not modelled.
- `reduce`'s generator (`rand_seeder`, `Pcg64`) is only the function `draw`. Uniformity of the draws is not modelled.
- The seed entropy (`ChaCha20Rng::from_entropy`) and the retry loop of `new` become one nondeterministic choice of an unused alphabet string of length `pass_size`. How many draws the loop takes is not modelled.
- RainbowTables.RainbowTable.constructor: the source loops forever when `num_chains` exceeds 75^`pass_size`. The model cannot express a loop that never ends, so it requires the bound instead.
- The rayon parallel map is a sequential, order-preserving loop. The `ProgressBar` and the `AtomicU64` counter in `forward` and `new` only report progress and are left out.
- ChainIndex.SortByLast: the standard library's in-place `sort_by` on a `Vec` is a stable insertion sort on a sequence here. Stability is not proved.
- ChainIndex.Search: the standard library's `binary_search_by` is a recursive binary search here. When several chains share the key's terminal, std may return a different one of them than the model does.
- RainbowTables.RainbowTable.Lookup: completeness is proved for hashes on a chain whose terminal no other chain shares. A hash that lies only on chains sharing their terminal with another chain can be missed: `check_rows` replays only the one chain the binary search lands on.
- RainbowTables.HashCount: `usize` overflow of the two products in `Display::fmt` is not modelled; the arithmetic is unbounded. The `human_format` and `f64` rendering is left out.
- RainbowTables.RainbowTable.Duplicates: the `u64` counter is unbounded here; it cannot exceed the number of chains anyway.
- Primitives.AsciiByte: `into_bytes` on the alphabet literal is modelled character by character, for ASCII characters only. `CharsetMembers` proves every character of the literal is ASCII, so UTF-8 encoding of wider characters is never needed.
- `String::from_utf8(..).unwrap()` on a lookup result is the identity. The lookups are proved to return alphabet (ASCII) bytes, so it cannot fail.
- `main` (timing, printing, random targets and the first-chain sanity lookup) and `src/auth.rs` (prints the hex SHA-1 of a constant) hold no logic of the engine.
