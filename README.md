# PauselessHashMap, modelled in Dafny

`PauselessHashMap` is a separately chained hash map that spreads out the work of a resize. When
`size` passes `nextResize`, the current bucket array becomes `oldTable` and an empty array of twice
the length becomes `table`. After that, every public `put` first migrates the next eight old
buckets into `table` (`migrate`, advancing the cursor `migrated`). The old array is dropped once
the cursor reaches its length. Below 1024 buckets the doubled array is allocated on the spot. From
1024 buckets on, the first crossing of the threshold submits the allocation to a background worker,
and a later crossing claims the array once the worker has finished. Keys go to bucket
`hash & (mask >> 1)` of either table. `get` reads the old bucket `hash & (mask >> 1)` when that
bucket is already drained, and bucket `hash & mask` of the current table otherwise.

The project has five modules:

- `Sizing` (`sizing.dfy`): Java `int`, powers of two, and the constructor's table length.
- `Chains` (`chains.dfy`): entries `(key, hash, value)`, bucket chains as sequences (head first),
  and the static chain `put` as the function `ChainPut` with its lemmas.
- `Migration` (`migration.dfy`): `migrate` as the function `MoveChain` and an eight-bucket batch
  as `MigrateRange`, with the facts that make migration a move: entries land in their bucket in
  the documented order and no entry is created or lost.
- `MapStates` (`map_states.dfy`): the fields as a value `MapState`, and the invariant `Valid`
  that holds between calls. The public `put` is `PutSpec`: the batch `Drain`, then the chain put
  `PutDrained`, then the threshold step `ResizeStep`. The public `get` is `LookupSpec`. The
  lemmas state size accounting, where entries go, the resize rules and the invariant.
- `PauselessHashMaps` (`pauseless_hash_map.dfy`): the class `PauselessHashMap`. Its fields are
  the fields of the Java object, and the bucket arrays are `array`s of chains updated in place.
  Every method is proved to leave the fields exactly as the matching `MapStates` function says.

The model follows the code as written, including three behaviours that rule out the usual map
properties:

- Entries that `put` stores in an already drained old bucket (line 102) are thrown away with
  the old table when the batch that completes the migration runs (line 99).
  `DrainLosesDrainedBuckets` states this, and `DroppedEntries` appears in the accounting lemmas.
- `put` indexes the current table with `mask >> 1` (line 108), while `get` uses the full mask
  (line 230). `PutThenGetMisses` shows a key that is stored and then not found.
- `get`'s loop never advances along the chain (lines 231-233). `GetSpinsPastHead` shows a `get`
  that never returns.

The constructor takes the highest one-bit of the hint clamped to at least 16 (lines 63-64), which
rounds down: a hint of 100 gives 64 buckets, not 128. See `InitialCapacity` and
`InitialCapacityExamples`.

## Model

| member | source | states |
|---|---|---|
| Sizing.HighestOneBit | src/org/belliottsmith/PauselessHashMap.java:64 | `1 << (31 - numberOfLeadingZeros(n))` is a power of two `r` with `r <= n < 2r`, so the hint is rounded down |
| Sizing.InitialCapacity | src/org/belliottsmith/PauselessHashMap.java:63-64 | the constructor's table length is a power of two with `16 <= length <= max(16, hint) < 2 * length` |
| Sizing.InitialCapacityKeepsPowers | src/org/belliottsmith/PauselessHashMap.java:63-64 | a hint that is already a power of two of at least 16 is kept unchanged |
| Sizing.InitialCapacityExamples | src/org/belliottsmith/PauselessHashMap.java:63-64 | hint 10 gives 16 buckets and hint 100 gives 64, not 128 |
| Chains.MaskedIndex | src/org/belliottsmith/PauselessHashMap.java:80 | `hash & mask` for a mask one below a power of two is an index of at most `mask`, so it is in bounds |
| Chains.FirstMatch | src/org/belliottsmith/PauselessHashMap.java:154-163 | the chain walk stops at the first entry with equal hash and key; no earlier entry matches, and None means no entry matches |
| Chains.ChainPut | src/org/belliottsmith/PauselessHashMap.java:151-170 | the chain grows by one exactly when null is returned, and null is returned exactly when no entry matches |
| Chains.ChainPutFound | src/org/belliottsmith/PauselessHashMap.java:156-161 | with a match, the first matching entry's value is replaced and the old value returned; the chain keeps its length, keys and order, and every other entry is untouched |
| Chains.ChainPutNotFound | src/org/belliottsmith/PauselessHashMap.java:165-169 | with no match, a new entry is linked at the tail (or becomes the head of an empty bucket) and null is returned |
| Chains.ChainPutMultiset | src/org/belliottsmith/PauselessHashMap.java:151-170 | an insert adds exactly the new entry to the chain; an update swaps the entry holding the old value for one holding the new value |
| Chains.ChainPutKeepsNoDuplicates | src/org/belliottsmith/PauselessHashMap.java:151-170 | a chain without two entries of equal hash and key keeps that property |
| Chains.ChainPutThenFind | src/org/belliottsmith/PauselessHashMap.java:151-170 | after a chain put, a walk of the chain for the same key finds the value just put |
| Migration.MoveChain | src/org/belliottsmith/PauselessHashMap.java:76-84 | the table `migrate`'s loop leaves behind has the same length as before |
| Migration.MoveChainBuckets | src/org/belliottsmith/PauselessHashMap.java:77-83 | each new bucket `j` becomes the old chain's entries whose `hash & mask` is `j`, in reverse of their old order, followed by what `j` held before |
| Migration.MoveChainPlacesEntries | src/org/belliottsmith/PauselessHashMap.java:80-82 | every entry of the migrated chain ends up in bucket `hash & mask` of the new table |
| Migration.MoveChainMultiset | src/org/belliottsmith/PauselessHashMap.java:74-86 | the new table gains exactly the entries of the migrated chain |
| Migration.MigrateBucketMultiset | src/org/belliottsmith/PauselessHashMap.java:74-86 | emptying the old bucket and moving its chain keeps the multiset of entries across the two tables |
| Migration.MoveChainConcat | src/org/belliottsmith/PauselessHashMap.java:96-97 | migrating two chains one after the other is migrating their concatenation |
| Migration.MigrateRange | src/org/belliottsmith/PauselessHashMap.java:96-97 | migrating consecutive old buckets keeps the lengths of both tables |
| Migration.MigrateRangeOld | src/org/belliottsmith/PauselessHashMap.java:96-97 | exactly the migrated old buckets become empty; every other old bucket is untouched |
| Migration.MigrateRangeRemaining | src/org/belliottsmith/PauselessHashMap.java:96-99 | afterwards the old table holds just the entries of the buckets outside the migrated range |
| Migration.MigrateRangeNew | src/org/belliottsmith/PauselessHashMap.java:96-97 | the new table is what migrating the migrated buckets' chains, in bucket order, gives |
| Migration.MigrateRangeMultiset | src/org/belliottsmith/PauselessHashMap.java:96-97 | a batch creates and loses no entry across the two tables |
| MapStates.InitialState | src/org/belliottsmith/PauselessHashMap.java:61-67 | the constructed state satisfies the invariant: a power-of-two length within the hint's bounds, `nextResize` half the length, no old table, no pending allocation, size 0 and every bucket empty |
| MapStates.BatchFits | src/org/belliottsmith/PauselessHashMap.java:96-97 | while the old table is present, the eight `migrate` indexes `migrated .. migrated + 7` are in bounds |
| MapStates.Drain | src/org/belliottsmith/PauselessHashMap.java:94-99 | a batch keeps the invariant, advances `migrated` by 8, and drops the old table exactly when `migrated` reaches its length |
| MapStates.DrainEffect | src/org/belliottsmith/PauselessHashMap.java:94-99 | a batch migrates exactly the old buckets `[migrated, migrated + 8)` into the current table; every other old bucket, `size`, `nextResize` and the pending allocation are unchanged |
| MapStates.DrainAccounting | src/org/belliottsmith/PauselessHashMap.java:94-99 | a batch loses no entry, except that the batch that completes the migration drops the entries in the already drained old buckets |
| MapStates.DrainLosesDrainedBuckets | src/org/belliottsmith/PauselessHashMap.java:98-102 | an entry stored in a drained old bucket is lost when the completing batch drops the old table |
| MapStates.InsertIndex | src/org/belliottsmith/PauselessHashMap.java:100-108 | the insert bucket `hash & (mask >> 1)` is always in the lower half of the current table |
| MapStates.BucketPutAccounting | src/org/belliottsmith/PauselessHashMap.java:102-108 | a chain put into one bucket moves entries in and out of the whole table as it does for the bucket |
| MapStates.InsertIntoOldAccounting | src/org/belliottsmith/PauselessHashMap.java:102-104 | a put into the old table adds or updates the entry and counts an insert in `size` |
| MapStates.InsertIntoTableAccounting | src/org/belliottsmith/PauselessHashMap.java:108-109 | a put into the current table adds or updates the entry and counts an insert in `size` |
| MapStates.PutInsertAccounting | src/org/belliottsmith/PauselessHashMap.java:94-109 | batch plus chain put: `size` grows by one exactly when null is returned; the entries change by the put, less those a completing batch drops |
| MapStates.PutInsertKeepsValid | src/org/belliottsmith/PauselessHashMap.java:94-109 | batch plus chain put keeps the invariant |
| MapStates.ResizeStepKeeps | src/org/belliottsmith/PauselessHashMap.java:109-146 | starting a cycle, submitting an allocation or claiming one keeps the invariant and moves no entry |
| MapStates.PutKeepsValid | src/org/belliottsmith/PauselessHashMap.java:88-149 | the public `put` keeps the invariant between calls |
| MapStates.PutAccounting | src/org/belliottsmith/PauselessHashMap.java:88-149 | the public `put`: `size` grows by one exactly when null is returned; an insert adds just the entry put and an update swaps just the entry holding the replaced value, counting the entries a completing batch drops as still present; a resize moves no entry |
| MapStates.PutResizeRules | src/org/belliottsmith/PauselessHashMap.java:109-146 | the table length stays or doubles. It doubles only on an insert past `nextResize` with no migration in flight, below 1024 or by claiming a completed allocation. The new table is then empty, the table the insert left becomes `oldTable`, the cursor is 0 and `nextResize` is doubled. Such an insert always acts: below 1024 it doubles the table, and from 1024 it submits an allocation for twice the length when none is pending and claims a pending one that is done. An allocation is submitted only from 1024, and a pending one is never replaced. While it is not done, nothing in the resize state changes |
| MapStates.LookupAgreesWithWalk | src/org/belliottsmith/PauselessHashMap.java:222-235 | `get` returns the head's value when the head matches and null on an empty bucket, and agrees with a full chain walk whenever it returns; it spins exactly when the head does not match |
| MapStates.PutThenGetMisses | src/org/belliottsmith/PauselessHashMap.java:227-230 | a key with hash 8 put into an empty 16-bucket map is stored in bucket 0, and `get` then reads bucket 8 and misses it |
| MapStates.GetSpinsPastHead | src/org/belliottsmith/PauselessHashMap.java:231-233 | with keys of hash 0 and 16 in one chain, `get` of the second reads the chain that holds it but never returns |
| PauselessHashMaps.PauselessHashMap.NewTable | src/org/belliottsmith/PauselessHashMap.java:65 | a new bucket array is fresh and all its buckets are null |
| PauselessHashMaps.PauselessHashMap.constructor | src/org/belliottsmith/PauselessHashMap.java:61-67 | the fields are the initial state for the hint, which satisfies the invariant |
| PauselessHashMaps.PauselessHashMap.Migrate | src/org/belliottsmith/PauselessHashMap.java:74-86 | the loop relinks the old chain into the current table as `MoveChain` says, empties the old bucket, and changes no other old bucket; an empty bucket changes nothing |
| PauselessHashMaps.PauselessHashMap.MigrateBatch | src/org/belliottsmith/PauselessHashMap.java:96-97 | the eight-step loop migrates buckets `migrated .. migrated + 7` in order and advances `migrated` by 8 |
| PauselessHashMaps.PauselessHashMap.DrainBatch | src/org/belliottsmith/PauselessHashMap.java:94-99 | the fields after a batch are `Drain` of the fields before, and the invariant holds |
| PauselessHashMaps.PauselessHashMap.PutChain | src/org/belliottsmith/PauselessHashMap.java:151-170 | the chain walk updates the first match in place or appends a new entry, as `ChainPut` says; only `table[index]` changes |
| PauselessHashMaps.PauselessHashMap.PutIntoOld | src/org/belliottsmith/PauselessHashMap.java:102-105 | a put into the old bucket followed by the size count, as `InsertIntoOld` says |
| PauselessHashMaps.PauselessHashMap.PutIntoTable | src/org/belliottsmith/PauselessHashMap.java:108-109 | a put into the current table followed by the size count, as `InsertIntoTable` says |
| PauselessHashMaps.PauselessHashMap.PutAt | src/org/belliottsmith/PauselessHashMap.java:100-108 | chooses the old bucket when it is already drained and the current table otherwise, as `PutDrained` says |
| PauselessHashMaps.PauselessHashMap.Insert | src/org/belliottsmith/PauselessHashMap.java:93-109 | batch plus chain put, as `PutInsert` says, keeping the invariant |
| PauselessHashMaps.PauselessHashMap.Resize | src/org/belliottsmith/PauselessHashMap.java:109-146 | the threshold step, as `ResizeStep` says, keeping the invariant; a new table is a fresh array |
| PauselessHashMaps.PauselessHashMap.Put | src/org/belliottsmith/PauselessHashMap.java:88-149 | the fields and the result after the public `put` are `PutSpec` of the fields before, and the invariant holds |
| PauselessHashMaps.PauselessHashMap.Get | src/org/belliottsmith/PauselessHashMap.java:222-235 | `get` changes nothing and returns what `LookupSpec` says for the fields |

## Left out

- The benchmark harness (`main`, `test`, `test2`, `perc`, CPU timing, JMX beans, the comparison map; lines 237-314): it only does I/O and timing.
- The stubbed `Map` methods (`remove`, `putAll`, `clear`, the views, `size()`, `isEmpty`, `containsKey`, `containsValue`; lines 172-220): they return constants and have no logic.
- The executor and `Future` (lines 51, 120-127): concurrency is not modelled. A pending allocation is the length of the array it will produce. `isDone()` is the `allocationDone` argument of `Put`. The array is allocated when it is claimed. The worker's `table.length << 1` reads the table it sees when it runs, but `table` does not change while an allocation is pending, so the length is recorded when it is submitted.
- A failed allocation (lines 116, 124 and 130-144): the model assumes that allocating the doubled array succeeds. In Java, `new Entry[table.length << 1]` can throw `OutOfMemoryError`, or `NegativeArraySizeException` once the shift overflows. On the asynchronous path, `nextTable.get()` then throws `ExecutionException`, which `put` rethrows as `RuntimeException`; an `InterruptedException` becomes `IllegalStateException`. By then `size` has been incremented, and lines 113-115 or 132-134 have run: `nextResize` is doubled, `migrated` is 0 and `oldTable` is the same array as `table`. On the asynchronous path `nextTable` also stays set, because line 145 is skipped. The invariant `Valid` excludes this partial state, since it requires the two arrays to differ.
- The `0.5f` multiply in the constructor (line 66): it is exact halving, which is correct for every power of two an `int` holds.
- `int` overflow: `size`, `nextResize` and the table length are unbounded integers. The overflow of `table.length << 1`, `nextResize <<= 1` and `++size` at 2^30 buckets or 2^31 entries is not modelled.
- `hashCode()` and `equals` (lines 69-72, 156): the hash is the function `hashCode` the map is built with, and key equality is Dafny's `==`.
- The `assert key != null` and `assert value != null` checks (lines 90-91): keys and values are never null in the model.
- PauselessHashMaps.PauselessHashMap.Get: it has no loop. Its `while` at lines 231-233 never advances, so it never returns when the bucket is non-empty and its head does not match. The model returns the outcome `Spins` for that case instead of looping forever.
- The Java entries are linked objects, but the model's chains are sequences. Relinking `entry.next` in `migrate` and in the static `put` is modelled by the resulting chain contents, so sharing of `Entry` objects between chains is not modelled. Such sharing happens in the middle of `migrate`'s loop: the old bucket still points at an entry that has already been relinked into the new table. The model leaves the old bucket intact until it is cleared at line 85, and no caller observes the state in between. The two bucket arrays themselves become the same array only on the failed-allocation path above, which the model leaves out.
