# haph — a verified model of static perfect hash map construction

haph builds immutable hash maps from a key/value list known in advance. It uses
CHD ("compress, hash, displace") minimal perfect hashing:

- Every key is hashed under a seed to a triple `(h0, h1, h2)`.
- Keys are grouped into `ceil(n / 5)` buckets by `h0`.
- Buckets are resolved heaviest first. For each bucket, the first displacement
  pair `(d1, d2)` in `d1`-major order over `[0, n)²` is chosen. It must send
  every member to a free slot `displace(h1, h2, d1, d2) mod n`, and no two
  members to the same slot.
- If any bucket cannot be placed, the seed is abandoned and the next one is
  tried.
- Once placement succeeds, the entries are permuted into slot order in place.
- A lookup recomputes the slot and compares the key stored there.

The model has six modules:

| module | file | models |
|---|---|---|
| `Wrappers` | `wrappers.dfy` | `Option` and `Result` |
| `Words` | `words.dfy` | the hash word: wrapping multiplication and addition, `displace`, the `usize as H` cast |
| `Buckets` | `buckets.dfy` | the bucket count, bucket contents, and the stable sort by descending size |
| `Displacement` | `displacement.dfy` | value-level specification of `try_generate`: first-fit pair search, placement, the `MapState` result, and the theorems about it |
| `Generate` | `generate.dfy` | the imperative `try_generate` and `generate` |
| `Haph` | `haph.dfy` | `Map::new`, `has_duplicates`, `sort_by_indices`, `get_entry` |

Each imperative method is proved to compute a value-level function: `TryGenerate`
computes `Placement`, `FindDisplacement` computes `FirstFit`, `Commit` computes
`Place`, and `SortByIndices` computes `Permute`. The properties promised by the
source are proved as lemmas about those functions.

Three functions model source code directly and need no row of their own, since
their contracts only restate their bodies:

- `Generate.HashAll` (src/generate.rs:48-51) hashes every key under one seed.
- `Haph.Keys` (src/lib.rs:54) lists the keys of the entries.
- `Haph.Assemble` (src/lib.rs:58-68) is the map `Map::new` builds under one seed.

The hash word is fixed at 32 bits (`Words.Modulus`). The trial stamps
(`try_map`) keep the arrays and the generation counter of the source.

## Model

| member | source | states |
|---|---|---|
| `Words.DisplaceIsAffine` | src/generate.rs:128-133 | `displace` equals `(f1*d1 + f2 + d2) mod 2^32`: arithmetic wraps at the hash width |
| `Words.AsWord` | src/generate.rs:82 | the `usize as H` cast leaves a value below the word modulus unchanged |
| `Buckets.NumBuckets` | src/generate.rs:63-64 | the bucket count is `ceil(n/5)`: `5r >= n > 5r - 5`; it is zero exactly when there are no entries |
| `Buckets.BucketOf` | src/generate.rs:69 | an entry's bucket `h0 mod num_buckets` is a valid bucket index |
| `Buckets.KeysInMembers` | src/generate.rs:66-70 | bucket `b` holds entry `i` iff `h0_i mod num_buckets == b`, so each entry is in exactly one bucket |
| `Buckets.KeysInIncreasing` | src/generate.rs:68-70 | a bucket's keys are in increasing entry order, as pushed |
| `Buckets.InitialBucketsTotal` | src/generate.rs:66-70 | the buckets together hold exactly `n` keys |
| `Buckets.InsertSorted` | src/generate.rs:71 | inserting a bucket of lowest index into a sorted list keeps it sorted by (size descending, index ascending) |
| `Buckets.SortBySizeFacts` | src/generate.rs:71 | the stable sort permutes the buckets and keeps every key; from index order, it yields size-descending order with ties in index order |
| `Buckets.ResolutionOrderFacts` | src/generate.rs:63-71 | the resolution order has `num_buckets` buckets with distinct indices; each holds exactly its own entries; it is stably sorted by descending size; every entry's bucket is in it |
| `Displacement.Slot` | src/generate.rs:87-88 | a member's slot `displace(h1, h2, d1, d2) mod n` lies in the table |
| `Displacement.FirstFitIsFirst` | src/generate.rs:80-104 | a chosen pair has `d1, d2 < n`, places every member on a free and distinct slot, and no earlier pair in `d1`-major order does; no pair is found iff none in `[0, n)²` works |
| `Displacement.PlaceInside` | src/generate.rs:98-101 | committing a bucket writes `Some(key)` into each member's slot |
| `Displacement.PlaceOutside` | src/generate.rs:98-101 | committing a bucket leaves every other slot as it was |
| `Displacement.PlaceCount` | src/generate.rs:98-101 | committing a bucket that fits fills exactly as many slots as it has members |
| `Displacement.ResolvedFills` | src/generate.rs:79-111 | after all buckets are placed, every slot is `Some` (the `unwrap` cannot fail) and each slot holds an entry that maps to it |
| `Displacement.PlacementCorrect` | src/generate.rs:73-111 | on success: one pair per bucket; `indices` is a permutation of `[0, n)`; `indices[slot(i)] == i` for every entry; `slot(indices[s]) == s` for every slot |
| `Displacement.DisplacementsBounded` | src/generate.rs:80-82 | for `n <= HashMax`, every stored pair has both components below `n` |
| `Displacement.PlacementOfNoEntries` | src/generate.rs:63-111 | with no entries, `try_generate` succeeds with an empty displacement table and empty indices |
| `Displacement.ResolveNoneIffStuck` | src/generate.rs:79-106 | resolving a bucket list fails iff some bucket has no working pair after its predecessors are committed |
| `Displacement.PlacementNoneIffStuck` | src/generate.rs:79-106 | `try_generate` returns `None` iff some bucket in resolution order is stuck |
| `Generate.BuildBuckets` | src/generate.rs:66-70 | the loop builds exactly the specified buckets |
| `Generate.Trial` | src/generate.rs:83-96 | one trial succeeds iff the pair fits; on success it yields each member's (slot, key); it changes only the stamps, never the slot table; stamps never exceed the generation; afterwards a slot carries this trial's stamp iff a recorded (slot, key) pair names it, i.e. "used in this trial" means "stamp equals generation" |
| `Generate.SearchRow` | src/generate.rs:81-103 | the `d2` loop for one `d1` finds the first fitting pair of that row, or reports that the search moves to the next row; the counter rises by exactly one per trial (`d2 + 1` trials when found at `d2`, `n` when the row fails) |
| `Generate.FindDisplacement` | src/generate.rs:80-104 | the double loop finds a pair iff one fits, and returns the first one |
| `Generate.Commit` | src/generate.rs:98-101 | writing `values_to_add` turns the slot table into the committed placement |
| `Generate.ResolveBucket` | src/generate.rs:79-106 | one bucket pass finds a pair iff the first-fit search does; it then records the first fitting pair as the bucket's displacement and commits the members, changing no other displacement |
| `Generate.TryGenerate` | src/generate.rs:58-112 | the imperative `try_generate` returns exactly the value-level `Placement` |
| `Generate.Generate` | src/generate.rs:36-55 | returns the first seed whose attempt succeeds, with that attempt's state; `None` iff every seed fails |
| `Haph.HasDuplicates` | src/lib.rs:73-83 | true iff some `i < j` have `items[i] == items[j]` |
| `Haph.FollowCycle` | src/lib.rs:89-98 | following one cycle marks every slot up to `idx` done and keeps each done slot holding `data[indices[s]]` |
| `Haph.SortByIndices` | src/lib.rs:86-101 | afterwards `data[s] == old(data)[indices[s]]` for every slot; the multiset of items is unchanged; the identity permutation changes nothing |
| `Haph.GetEntry` | src/lib.rs:104-126 | an empty displacement table finds nothing; any entry found has the queried key and is stored in the map; every index is in bounds |
| `Haph.AssembledMapFindsEntries` | src/lib.rs:103-126 | in a map assembled from a successful attempt, every input entry is found under its key, and a key not in the input is never found |
| `Haph.New` | src/lib.rs:40-69 | fails with `TooManyEntries` iff `n > HashMax`; fails with `DuplicateKey` iff the size is allowed and a key repeats; fails with `NoSeedWorks` iff no seed works; otherwise the map is the one assembled under the first working seed, so construction is deterministic; the map holds exactly the input entries and finds exactly them |

## Left out

- Hashing (`hash`, the `MapHasher` trait, `Hash`) is a parameter `hasher: (K, S) -> Triple`.
  - The key is hashed as `K`, though `Map::new` hashes `&K` and `get_entry` hashes a borrowed `Q`. The model relies on Rust's `Hash`/`Borrow` contract that these agree.
- The seed source `R::seed_from_u64(FIXED_SEED).sample_iter(Standard)` is a finite sequence of seeds.
  - The Rust stream never ends. When every given seed fails, the model returns `None` and `NoSeedWorks`; the Rust stream would keep searching, and its `expect` panics only if the stream ends.
- The hash width is generic in the source. Here it is fixed at 32 bits; no proof depends on the value.
- Generate.Trial: the generation counter is an unbounded `nat`. The `u64` wrap-around after 2^64 trials is not modelled.
- Panics (`assert!`, `expect`) are `Failure` values of `BuildError`. Panics on slice indexing are proved impossible.
- `Vec::sort_by` is a library stable sort. It is modelled as a stable insertion sort over values (`Buckets.SortBySize`).
  - A stable sort by this key has only one possible result, so the order matches. The in-place mechanics of the library sort are not modelled.
- The bucket list, `values_to_add` and the key list are values (`seq`); only `displacements`, `map` (called `slots`) and `try_map` are arrays.
- `sort_by_indices` consumes its `indices` vector and uses it as the visited marker (src/lib.rs:86-101). The model copies it into a local array, `marks`.
- `Map` is a value holding the seed, the displacement pairs and the entries.
  - The `PhantomData` marker, the `no_std` attribute and capacity hints have no behaviour and are omitted.
- `has_duplicates` uses a `foldhash::HashSet`. It is modelled by a Dafny `set`.
