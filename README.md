# frozen::unordered_map — the lookup facade, in Dafny

`frozen::unordered_map<Key, Value, N>` is an immutable hash map whose N entries are
fixed when it is built. Building it computes a perfect-hash table over the keys. A
lookup asks that table for one candidate position (`tables_.lookup(key, hash)`). The
facade then checks the candidate: it must lie inside the entry array, and the key
stored there must compare equal to the query under `key_eq()`. `find`, `count`,
`contains`, `equal_range` and `at` are all built on that check. Values, but never keys,
may be overwritten in place through the non-const `at` and through iterators.

This project models that facade:

- `frozen_bits.dfy`, module `FrozenBits`: powers of two and `next_highest_power_of_two`,
  which sizes the table.
- `unordered_map.dfy`, module `FrozenUnorderedMap`:
  - `StorageSize`, the table size.
  - The lookup operations as functions over the entry sequence: `Find`, `Count`,
    `Contains`, `EqualRange` and `At`.
  - The class `UnorderedMap`. It holds the entries in an `array<(K, V)>` in construction
    order, with a ghost record of the constructed keys. It provides the capacity and
    bucket queries, `Begin`/`End`, and the two in-place writes: `SetValue`, which writes
    through an iterator, and `SetAt`, which writes through the non-const `at`. It also
    provides the constructors, including the initializer-list size check.
  - The lemmas: no false positives, completeness under the table hypothesis, and
    read-after-write.
- `unordered_map_scenarios.dfy`, module `FrozenUnorderedMapScenarios`: the concrete maps
  of the test suite, used as clients of the contracts. These are the singleton map, the
  `{3: 4, 11: 12}` map, the modifiable `{0: 1, 2: 3, 4: 5}` map, and a case-insensitive
  transparent lookup.

How the model represents the source:

- An iterator is an entry index. `begin()` is 0 and `end()` is N.
- The perfect-hash table is not modelled. Each query takes two parameters:
  - `lookup: Q -> nat` is the position the table returns for the query under the map's
    hasher.
  - `equal: (K, Q) -> bool` is the map's `key_eq()`.
- The query type `Q` may differ from the key type `K`. This covers heterogeneous and
  transparent lookup.
- No-false-positive results hold for every `lookup`.
- Completeness results assume the property that table construction provides:
  - `SendsKeysHome`: every stored key goes to its own index.
  - `SendsMatchesHome`: for heterogeneous queries, every query that equals a stored key
    goes to that key's index.
- The `at` miss path (`FROZEN_THROW_OR_ABORT(std::out_of_range)`) is the error result
  `Failure(OutOfRange)`.
- An initializer list of the wrong length fails the `constexpr_assert`. The model reports
  this as `Failure(InconsistentSize)`.

Where the model reads the code in a specific way:

- `find_impl` guards with `it != items_.end()`. This rejects only the position N itself.
  The model treats every position at or beyond N as a miss.
- The two readings agree whenever the table returns positions of at most N. The table's
  lookup, in `frozen/bits/pmh.h`, is meant to guarantee that; `FindMatchesEndGuard`
  states the agreement.
- For a position beyond N, the C++ would form an iterator past the end, which is
  undefined behaviour. The model does not reproduce that.

## Model

| member | source | states |
|---|---|---|
| `FrozenBits.NextHighestPowerOfTwo` | include/frozen/unordered_map.h:55-56 | the result is a power of two, at least n, and halving it would drop below n |
| `FrozenBits.NextHighestPowerOfTwoIsLeast` | include/frozen/unordered_map.h:55-56 | no power of two that is at least n is smaller than `NextHighestPowerOfTwo(n)` |
| `FrozenUnorderedMap.StorageSize` | include/frozen/unordered_map.h:55-56 | `storage_size` is a power of two and at least N; below 32 entries it is at least 2N and below 4N; from 32 entries on it is below 2N |
| `FrozenUnorderedMap.Find` | include/frozen/unordered_map.h:171-179 | `find` returns End() or a position below N whose stored key equals the query (no false positives, whatever the table returns), and that position is the table's candidate; a miss means the candidate was out of range or its key did not match |
| `FrozenUnorderedMap.FindMatchesEndGuard` | include/frozen/unordered_map.h:173-178 | for candidates at most N, `Find` is exactly the source's `it != end() && equal(it->first, key)` test |
| `FrozenUnorderedMap.Count` | include/frozen/unordered_map.h:116-119 | `count` is at most 1; it is 1 exactly when `find` is not End(), and then some stored key equals the query |
| `FrozenUnorderedMap.Contains` | include/frozen/unordered_map.h:139-142 | `contains` holds exactly when `count` is 1, and only for queries equal to some stored key |
| `FrozenUnorderedMap.EqualRange` | include/frozen/unordered_map.h:181-188 | `equal_range` starts at `find`'s result, has length `count` (so `[it, it+1)` or `(end, end)`), and every entry in it matches the query |
| `FrozenUnorderedMap.At` | include/frozen/unordered_map.h:162-169 | `at` fails with OutOfRange exactly when `find` is End(); otherwise it returns the value of the entry `find` located, whose key equals the query |
| `FrozenUnorderedMap.WithValue` | include/frozen/unordered_map.h:57 | replacing a value (entries are `pair<const Key, Value>`) keeps the size and every key, sets that entry's value and changes no other entry |
| `FrozenUnorderedMap.HomeTableSeparatesKeys` | include/frozen/unordered_map.h:87-89 | a table sending every stored key to its own index exists only for distinct keys and sends distinct keys to distinct positions |
| `FrozenUnorderedMap.FindLocatesStoredKeys` | include/frozen/unordered_map.h:173-176 | completeness: if the table sends each stored key home and key equality is reflexive on stored keys, `find` of entry i's key is i and `at` returns entry i's value |
| `FrozenUnorderedMap.FindHitIffStored` | include/frozen/unordered_map.h:172-178 | if the table sends matching queries home, `find` is a hit exactly when some stored key equals the query (both directions) |
| `FrozenUnorderedMap.CountIsMembership` | include/frozen/unordered_map.h:116-119 | under the same hypothesis, `count == 1` and `contains` each hold exactly when some stored key equals the query |
| `FrozenUnorderedMap.AtReturnsStoredValue` | include/frozen/unordered_map.h:162-169 | under the same hypothesis, `at` of a query equal to entry i's key returns entry i's value |
| `FrozenUnorderedMap.WriteKeepsPositions` | include/frozen/unordered_map.h:125-128 | overwriting a value changes no `find` or `count` result |
| `FrozenUnorderedMap.ReadAfterWrite` | include/frozen/unordered_map.h:125-128 | after writing v at the entry `find(key)` locates, `at(key)` returns v; `at` of a query that lands elsewhere is unchanged |
| `FrozenUnorderedMap.UnorderedMap.constructor` | include/frozen/unordered_map.h:83-91 | construction from an N-entry array keeps the entries in the given order, N being the array's length |
| `FrozenUnorderedMap.FromInitializerList` | include/frozen/unordered_map.h:93-100 | an initializer list fails with InconsistentSize exactly when its length differs from N; otherwise the map holds its entries in order |
| `FrozenUnorderedMap.UnorderedMap.Entries` | include/frozen/unordered_map.h:103-108 | iteration yields N entries whose keys are the constructed keys, in construction order |
| `FrozenUnorderedMap.UnorderedMap.Begin` | include/frozen/unordered_map.h:103 | `begin()` is position 0 |
| `FrozenUnorderedMap.UnorderedMap.End` | include/frozen/unordered_map.h:104 | `end()` is position N, and the range from `begin()` to `end()` is all of the entries |
| `FrozenUnorderedMap.UnorderedMap.Empty` | include/frozen/unordered_map.h:111 | `empty()` holds exactly when there are no entries |
| `FrozenUnorderedMap.UnorderedMap.Size` | include/frozen/unordered_map.h:112 | `size()` is the number of entries, `end() - begin()` |
| `FrozenUnorderedMap.UnorderedMap.MaxSize` | include/frozen/unordered_map.h:113 | `max_size()` equals `size()` |
| `FrozenUnorderedMap.UnorderedMap.BucketCount` | include/frozen/unordered_map.h:154 | `bucket_count()` is a power of two and at least `size()`; below 32 entries it is at least 2N and below 4N; from 32 entries on it is below 2N |
| `FrozenUnorderedMap.UnorderedMap.MaxBucketCount` | include/frozen/unordered_map.h:155 | `max_bucket_count()` equals `bucket_count()` |
| `FrozenUnorderedMap.UnorderedMap.SetValue` | include/frozen/unordered_map.h:103-104 | writing through an iterator in `[begin, end)` replaces that entry's value only; keys, order and size are kept |
| `FrozenUnorderedMap.UnorderedMap.SetAt` | include/frozen/unordered_map.h:125-128 | `at(key) = v` fails with OutOfRange and changes nothing exactly when `find` misses; otherwise it replaces only the located entry's value, and a later `at(key)` returns v |
| `FrozenUnorderedMapScenarios.SingletonMap` | tests/test_unordered_map.cpp:24-53 | for the map {1: 2.0}: `count(1) == 1`, `count(3) == 0`, `at(1) == 2.0`, `find(3) == end()`, `find(1) == begin()`, `equal_range(1) == [begin, end)` |
| `FrozenUnorderedMapScenarios.AbsentKeyNeverFound` | tests/test_unordered_map.cpp:189-204 | for the map {3: 4, 11: 12}, any other key is not found and `at` of it fails with OutOfRange, whatever the table returns |
| `FrozenUnorderedMapScenarios.TransparentLookup` | tests/test_unordered_map.cpp:260-288 | for the map {"one": 1} with case-insensitive transparent comparison, "OnE" and "One" are found (with value 1), "TwO" and "333" are not |

## Left out

- Perfect-hash table construction (`bits::make_pmh_tables`, bucket sorting, seed search) and `pmh_tables::lookup`. `frozen/bits/pmh.h` is not part of this model. The table is a `lookup` parameter of each query. Its construction guarantee is the stated hypothesis `SendsKeysHome` / `SendsMatchesHome`.
- The hash functors (`elsa`, `anna`) and the `default_prg_t` generator. These headers are not part of this model, and neither are `hash_function()` and `key_eq()`, which only return the stored functors.
- `FrozenBits.NextHighestPowerOfTwo` returns 1 for n = 0. The source's `next_highest_power_of_two` lives in `frozen/bits/basic_types.h`, which is not part of this model. A bit-twiddling version over `size_t` would wrap to 0 at n = 0. The model also does not model `size_t` overflow for N above 2^63.
- Error-signalling mechanics. `FROZEN_THROW_OR_ABORT` and `constexpr_assert` choose between an exception, an abort and a compile-time failure. The model uses one error result for each.
- Compile-time evaluation, iterator typedefs, the const/non-const and `cbegin`/`cend` overload pairs (one function or method each), and the `make_unordered_map` factory overloads. The factories only forward to the constructors.
- Aliasing of references. The non-const `at` returns a `Value&`. The model performs the write in the same call (`SetAt`). It does not model a reference kept and written later.
- Concurrency. Concurrent writes to values are the caller's responsibility, as in the source.
