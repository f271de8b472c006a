# HybridPGMLIPP: a verified model of the hot/cold hybrid index

This project models the coordination layer of the `HybridPGMLIPP` index in
`competitors/hybrid_pgm_lipp.h`. The index has two tiers. The hot tier is a
Dynamic PGM index and takes every insert. The cold tier is a LIPP index.
Two counters decide when to move data: `pgm_key_count_` counts inserts since
the last flush and `total_key_count_` counts all inserts. After each insert,
`pgm_key_count_ >= total_key_count_ * 0.05` triggers `FlushToLIPP`. The flush
lists the hot tier in key order, inserts each entry into the cold tier, and
replaces the hot tier by an empty one. A lookup asks the hot tier first and
the cold tier second. The project also models `LinearSearch::upper_bound`,
the linear scan that the hot tier is parameterised with.

Files and modules:

- `types.dfy` (`Types`): 64-bit keys and values, and `Option`, whose `None`
  stands for the `util::NOT_FOUND` sentinel.
- `linear_search.dfy` (`LinearSearch`): `UpperBound`, a `while` loop over a
  sequence of keys, proved against `CountAtMost`, an independent definition
  of the standard upper bound on sorted input.
- `tiers.dfy` (`Tiers`): both tiers are maps from key to value. This module
  describes their in-order listing (`ListEntries`) and batch insertion into
  the cold tier (`InsertAll`). It states as an explicit assumption that a
  single LIPP insert behaves like a map update.
- `hybrid.dfy` (`Hybrid`): the class `HybridPgmLipp` with the source's four
  fields. Its object invariant `Valid()` says `|hot| <= pgmKeyCount <=
  totalKeyCount`. The counter counts calls, not distinct keys, so it is only
  an upper bound on the hot tier's size. `Valid()` also says that between
  calls either `pgmKeyCount == 0` or the hot tier is below the threshold.
  `Contents()` is what a lookup sees: the cold tier shadowed by the hot tier.

The threshold `total * 0.05` is modelled exactly as `20 * pgm >= total`.
`ShouldFlush` proves this equals the real-number comparison with 0.05.

Where the design description and the code disagree, this model follows the
code. The design describes a `Build` bulk load, a cold tier rebuilt
wholesale from a merged run, and a `RangeQuery` that sums values. The code
has no `Build`. It inserts hot entries into LIPP one at a time. Its
`RangeQuery` returns 0.

## Model

| member | source | states |
|---|---|---|
| `LinearSearch.UpperBound` | competitors/hybrid_pgm_lipp.h:15-22 | returns a position in `[first, last]`; every key before it is at most the probe; either it is `last` or its key is greater than the probe; on a sorted range every later key is greater too, and the position is `first` plus the number of keys at most the probe (the standard upper bound) |
| `LinearSearch.SplitPointIsCount` | competitors/hybrid_pgm_lipp.h:18-21 | in a sorted range, a position that splits the keys into "at most the probe" and "greater than the probe" equals the number of keys at most the probe |
| `Tiers.ListEntries` | competitors/hybrid_pgm_lipp.h:93-95 | the hot tier's in-order iteration yields strictly ascending keys, lists each entry exactly once (as many entries as keys), and the listed entries describe exactly the hot tier's map |
| `Tiers.InsertAllIsUnion` | competitors/hybrid_pgm_lipp.h:98-100 | inserting the listed entries into the cold tier one by one gives the old cold map overridden by the batch: batch keys take the batch's values, other cold keys are unchanged |
| `Hybrid.ShouldFlush` | competitors/hybrid_pgm_lipp.h:54 | the integer rule `20 * pgm >= total` holds exactly when `pgm >= total * 0.05` over the reals |
| `Hybrid.HybridPgmLipp.constructor` | competitors/hybrid_pgm_lipp.h:37-44 | a new index has empty tiers, both counters at 0, and satisfies the invariant |
| `Hybrid.HybridPgmLipp.Insert` | competitors/hybrid_pgm_lipp.h:47-57 | keeps the invariant; `totalKeyCount` rises by exactly 1; the looked-up contents become the old contents updated at the key; if the threshold is reached the hot tier is flushed into the cold tier and its counter is 0, otherwise the hot tier is updated at the key, its counter rises by 1 and the cold tier is unchanged; afterwards `pgmKeyCount == 0` or `20 * pgmKeyCount < totalKeyCount`; while `totalKeyCount <= 20` every insert leaves the hot tier empty |
| `Hybrid.HybridPgmLipp.EqualityLookup` | competitors/hybrid_pgm_lipp.h:60-69 | returns the hot value when the key is hot, otherwise the cold tier's answer (possibly NOT_FOUND); the result is the key's value in the cold tier shadowed by the hot tier, and NOT_FOUND exactly when the key is in neither tier; changes no state |
| `Hybrid.HybridPgmLipp.RangeQuery` | competitors/hybrid_pgm_lipp.h:72-75 | always returns 0 and changes no state |
| `Hybrid.HybridPgmLipp.FlushToLIPP` | competitors/hybrid_pgm_lipp.h:79-105 | afterwards the hot tier is empty, `pgmKeyCount == 0`, `totalKeyCount` is unchanged, the cold tier is the old cold tier overridden by every old hot entry, the looked-up contents are unchanged, and the invariant holds |
| `Hybrid.ShadowingAcrossFlush` | competitors/hybrid_pgm_lipp.h:47-69 | on a fresh index the first insert is flushed at once; after a second insert of the same key, the lookup returns the newer value |

## Left out

- The internals of `DynamicPGMIndex` and `LIPP` are not part of this model. Both tiers are finite maps. Their real method names do not match the calls the class makes, so their APIs are not modelled.
- Cold-tier insertion is ASSUMED to behave as a map update that overwrites an existing key (`Tiers.InsertAll`). LIPP's behaviour on duplicate keys is not part of this model.
- Hybrid.ShouldFlush: the `double` arithmetic of `FLUSH_THRESHOLD` is not modelled. The model uses the exact rational 1/20, so it ignores the rounding of `total_key_count_ * 0.05` and the conversion of large `size_t` values to `double`.
- Hybrid.HybridPgmLipp.Insert: the `size_t` counters are unbounded naturals; wrap-around after 2^64 inserts is not modelled.
- Hybrid.HybridPgmLipp.EqualityLookup: a miss is `None`. In the source a stored value equal to the `util::NOT_FOUND` sentinel would read as a hot-tier miss and fall through to the cold tier; the model does not capture that aliasing.
- The `thread_id` parameters are unused and are left out; the model is sequential.
- The unused `temp_keys` vector in `FlushToLIPP` is left out.
- LinearSearch.UpperBound: the iterator range is modelled by positions into a sequence and `get_key` by indexing; the unused `hint` parameter is left out, and the key type is fixed to 64-bit keys instead of the template parameter `K`.
- `benchmarks/benchmark_hybrid_pgm_lipp.h` and `benchmarks/benchmark_hybrid_pgm_lipp.cc` are benchmark registration code, and are not modelled.
- The code has no `Build` bulk load, no merge-and-rebuild of the cold tier, and no summing range query, so the model does not have them either.
- The model does not deduplicate keys across tiers. A key may be in both tiers before a flush, and the hot value shadows the cold one in lookups.
