# custom_hashmap in Dafny

This project models the core of the `custom_hashmap` crate. The core has three parts:

- **Key digests** (`AssemblyHash`). Every key type becomes a 32-bit digest.
  - A byte string of fewer than four bytes gives the sentinel 80. A longer string packs its first two and last two bytes into one word.
  - `u32` keys give the value itself.
  - `u64` and `i64` keys XOR the high half with the low half.
  - `i32`, `usize` and `isize` keys keep the low 32 bits.
- **`CustomHashMap`**, an open-addressing table.
  - It probes linearly from the bucket `digest % buckets`.
  - A removed entry becomes a tombstone (`Removed`).
  - The table doubles before an insert once live entries reach 75% of the buckets.
- **`LRUCache`**, a cache with a doubly linked recency list.
  - The list is threaded through an append-only arena of entries.
  - A key→slot index (the source's `map`) finds each key's entry.
  - When full, the cache evicts the tail of the list, which is the least recently used entry.

Modules:

- `Wrappers`: `Option`.
- `KeyDigest`: the digest rules as functions on `seq<bv8>` and bit-vectors.
- `HashTable`: the table state is `seq<Option<Bucket>>` plus `len`, and every operation is a pure function of it. The hash function is a parameter `K -> bv32`.
- `HashTableProofs`: the table invariant, a probe-path property called `ChainsIntact`, and the lemmas that relate the operations to the key→value relation `Stored`.
- `HashTableIntended`: the tombstone defect described under Findings, and a corrected insert.
- `Lru`: the cache as an immutable record. Each operation is a pure function.
- `LruModel`: the abstract cache. It is a recency sequence of keys, most recent first, plus a key→value map.
- `LruProofs`:
  - the linked-list invariant `Inv(c, order)`, where `order` is the list's slots from head to tail;
  - the abstraction `Abs` into `LruModel`;
  - one refinement lemma per public operation, plus the properties the cache inherits from the model.
- `LruScenarios`: the crate's test runs, derived from the refinement lemmas.

Four behaviours of the source are easy to misread; the model keeps each as written:

- `find_slot` returns at the first tombstone on the probe path. `first_removed` (`src/hash.rs:151`) is never assigned, although its name and the comment at `src/hash.rs:176` say the first removed slot should be remembered while the scan goes on. See Findings.
- The load check of `ensure_capacity` counts live entries only (`src/hash.rs:272`). Tombstones do not count towards the 75%.
- `usize` and `isize` keys are truncated to their low 32 bits (`src/hash.rs:82-86`, `src/hash.rs:100-104`). Unlike `u64` and `i64` keys, their high half is not folded in.
- `LRUCache::new` (`src/lib.rs:28-36`) stores the capacity as given and does not clamp it to at least 1. With capacity 0 the cache never counts as full once it holds a key, so it grows without bound (`LruProofs.ZeroCapacityGrows`).

## Model

| member | source | states |
|---|---|---|
| KeyDigest.LookUpIdentifier | src/hash.rs:1-50 | inputs shorter than 4 bytes give 80; otherwise the digest's bytes, least significant first, are b[n-2], b[n-1], b[0], b[1] |
| KeyDigest.PackWords | src/hash.rs:9-12 | the two 16-bit little-endian loads, shifted and or-ed, put the first word in the high half and the last word in the low half |
| KeyDigest.DigestDeterminedByEnds | src/hash.rs:7-15 | two inputs of at least 4 bytes get the same digest if and only if their first two and last two bytes agree |
| KeyDigest.StringAgreesWithStr | src/hash.rs:57-67 | the `String` digest equals the `&str` digest, and it is 80 for every input shorter than 4 bytes |
| KeyDigest.SentinelIsReachableByLongInput | src/hash.rs:14-15 | the sentinel 80 is also the digest of a 4-byte input, so it is not a distinct error channel |
| KeyDigest.DemoVectors | src/hash.rs:7-15 | "hello" hashes to 0x65686F6C and "ab" hashes to the sentinel |
| KeyDigest.HashStr | src/hash.rs:63-67 | a `&str` of fewer than 4 bytes gives 80; a longer one gives the digest whose bytes, least significant first, are b[n-2], b[n-1], b[0], b[1] |
| KeyDigest.HashString | src/hash.rs:57-61 | a `String` digest has the same byte characterisation as the `&str` digest |
| KeyDigest.HashU32 | src/hash.rs:70-74 | a `u32` hashes to itself, which is also its `u64` and `usize` digest when widened |
| KeyDigest.HashU64 | src/hash.rs:76-80 | a value held in one 32-bit half hashes to that half (high XOR low) |
| KeyDigest.HashUsize | src/hash.rs:82-86 | for every `usize`, the digest widened back is exactly the low half of the word; the high half is dropped |
| KeyDigest.FoldIsTruncationXorHigh | src/hash.rs:76-86 | for every 64-bit word, the `u64` digest is the `usize` digest XOR the high half |
| KeyDigest.FoldAgreesIffHighZero | src/hash.rs:76-86 | the `u64` and `usize` digests of a word agree exactly when its high half is zero |
| KeyDigest.Wrap32 | src/hash.rs:88-92 | `as u32` gives the unique value below 2^32 congruent to the input: the input itself when in range, input + 2^32 for 32-bit negatives |
| KeyDigest.HashI32 | src/hash.rs:88-92 | a non-negative `i32` hashes to itself; a negative one to its two's complement pattern |
| KeyDigest.Wrap64 | src/hash.rs:94-98 | `as u64` gives the unique value below 2^64 congruent to the input |
| KeyDigest.AsU64 | src/hash.rs:94-98 | `i64 as u64` is the two's complement bit pattern |
| KeyDigest.HashI64 | src/hash.rs:94-98 | a non-negative `i64` hashes as the same `u64`; a negative one as the `u64` x + 2^64 |
| KeyDigest.HashIsize | src/hash.rs:100-104 | for every `isize` x, the digest is the bit pattern of `Wrap32(x)`, the unique value below 2^32 congruent to x (its low 32 bits); for -2^32 <= x < 2^32 that is x itself or x + 2^32 |
| KeyDigest.UnsignedDigestsAgreeOnSmallValues | src/hash.rs:70-86 | below 2^31 the `u32`, `u64` and `usize` digests are all the identity |
| KeyDigest.SignedDigestsAgreeOnSmallValues | src/hash.rs:88-104 | non-negative small values hash alike as `i32`, `isize` and (via `u64`) `i64` |
| KeyDigest.UsizeTruncatesWhereU64Folds | src/hash.rs:76-104 | 2^32 hashes to 0 as `usize`/`isize` but to 1 as `u64`/`i64`: truncation and folding differ |
| HashTable.BucketIndex | src/hash.rs:144-147 | the home bucket lies inside the table |
| HashTable.SmallDigestIsHome | src/hash.rs:144-147 | a digest below the bucket count is its own home bucket |
| HashTable.Overloaded | src/hash.rs:270-273 | the table counts as overloaded exactly when its live entries reach three quarters of the buckets, rounded up |
| HashTable.NextPowerOfTwo | src/hash.rs:136 | the result is a power of two, at least n, and the least such (its half is below n) |
| HashTable.WithCapacity | src/hash.rs:135-142 | max(capacity,1) rounded up to a power of two buckets, all empty, `len` 0 |
| HashTable.New | src/hash.rs:131-133 | 16 empty buckets and `len` 0 |
| HashTable.FindSlotFrom | src/hash.rs:153-161 | the scan returns a bucket that is empty, a tombstone or holds the key, and no earlier bucket on the probe path is one |
| HashTable.FindSlot | src/hash.rs:149-162 | the result is the first such stop on the probe path from the home bucket, and the tombstone flag is set exactly when that bucket is `Removed` |
| HashTable.ProbeAt | src/hash.rs:187-198 | at each position of the path the probe stops on an empty bucket, answers a bucket holding the key, and steps past a tombstone or another key |
| HashTable.NextIndex | src/hash.rs:221 | `(idx + 1) % len` moves to the next bucket and wraps to 0 after the last |
| HashTable.ProbeAdvance | src/hash.rs:207-224 | a step of `get_mut`'s loop past a tombstone or another key moves to the next position of the path, returns to the start only after a full turn, and keeps the probe's answer |
| HashTable.ProbeFrom | src/hash.rs:187-198 | a hit holds the key and every bucket before it on the path is non-empty without the key; a miss means the path up to an empty bucket (or all of it) lacks the key |
| HashTable.FreeSlotExists | src/hash.rs:270-275 | when fewer buckets are occupied than exist, some bucket is empty or a tombstone, so the probe loop stops |
| HashTable.InsertProbed | src/hash.rs:167-180 | the entry is written at `find_slot`'s bucket; the old value is returned exactly when that bucket held an entry (then `len` is unchanged), otherwise `len` grows by one |
| HashTable.Insert | src/hash.rs:164-181 | the key is stored with the new value; the bucket count doubles exactly when the table was at 75% load; `len` grows by at most one |
| HashTable.EnsureCapacity | src/hash.rs:270-275 | after it the table is below 75% load; a table below it is unchanged; otherwise buckets double and no tombstone remains |
| HashTable.Resize | src/hash.rs:277-290 | the new table has the requested bucket count and no tombstone |
| HashTable.Reinsert | src/hash.rs:285-289 | reinserting keeps the bucket count and adds at most one entry per occupied pending bucket |
| HashTable.ProbeStops | src/hash.rs:183-198 | from the key's home bucket, a hit holds the key and every earlier bucket on the path is filled with another key or a tombstone; on a miss an empty bucket precedes every bucket on the path that holds the key |
| HashTable.Get | src/hash.rs:183-201 | a returned value is stored under the key |
| HashTable.ContainsKey | src/hash.rs:258-260 | true only when the key is stored |
| HashTable.Remove | src/hash.rs:230-256 | returns what `get` returns; a miss changes nothing; a hit happens exactly when the probe finds a bucket, turns exactly that bucket (which holds the key and the returned value) into `Removed`, and decrements `len` |
| HashTable.Len | src/hash.rs:262-264 | in a well-formed table the counter equals the number of live entries |
| HashTable.IsEmpty | src/hash.rs:266-268 | in a well-formed table `is_empty` holds exactly when no bucket holds a live entry |
| HashTable.GetMut | src/hash.rs:203-228 | the bounded loop yields the bucket `get` would read, and that bucket holds the key |
| HashTableProofs.WithCapacityIsValid | src/hash.rs:135-142 | a fresh table satisfies the invariant with no duplicates |
| HashTableProofs.ProbeReaches | src/hash.rs:187-198 | a probe started before a bucket holding the key, along a filled path, stops at the first bucket holding it |
| HashTableProofs.ProbeFindsStoredKey | src/hash.rs:183-201 | in a valid table every stored key is found by the probe |
| HashTableProofs.ContainsKeyIffStored | src/hash.rs:258-260 | in a valid table `contains_key` holds exactly when the key is stored |
| HashTableProofs.GetAgreesWithStored | src/hash.rs:183-201 | without duplicate keys, `get` returns v exactly when (key, v) is stored, and nothing exactly when the key is absent |
| HashTableProofs.InsertProbedEntries | src/hash.rs:167-180 | the write at the probed bucket stores the key and keeps every other key's entries |
| HashTableProofs.InsertProbedKeepsChains | src/hash.rs:167-180 | writing at the first stop keeps every entry reachable from its home bucket |
| HashTableProofs.InsertProbedKeepsNoDup | src/hash.rs:167-180 | without tombstones (or with the key absent) the write adds no duplicate key |
| HashTableProofs.ReinsertEntries | src/hash.rs:285-289 | reinsertion keeps every entry reachable and no key duplicated, and every pair it stores comes from the table or the pending buckets; when the pending buckets hold each key once and share no key with the table, every such pair is stored |
| HashTableProofs.ResizeEntries | src/hash.rs:277-290 | resizing a table without duplicates preserves every key→value pair and leaves no tombstone |
| HashTableProofs.EnsureCapacityEntries | src/hash.rs:270-275 | the load check keeps the invariant and the stored pairs |
| HashTableProofs.InsertKeepsValid | src/hash.rs:164-181 | `insert` keeps `len` equal to the number of occupied buckets, a power-of-two bucket count and reachable entries |
| HashTableProofs.GetAfterInsert | src/hash.rs:164-201 | after `insert(k, v)`, `get(k)` returns v |
| HashTableProofs.InsertUpdatesEntries | src/hash.rs:164-181 | without duplicates, and with no tombstone or the key absent, `insert` returns the old `get` and updates the map at the key alone |
| HashTableProofs.RemoveKeepsValid | src/hash.rs:230-256 | `remove` keeps the invariant and adds no duplicate |
| HashTableProofs.RemoveDeletesEntry | src/hash.rs:230-256 | without duplicates, `remove` deletes the key and keeps every other pair |
| HashTableIntended.InsertOverTombstone | src/hash.rs:156 | with key 2 behind a tombstone, `insert(2, 30)` writes into the tombstone |
| HashTableIntended.TombstoneDuplicatesKey | src/hash.rs:149-180 | insert 1, insert 2, remove 1, insert 2 on four colliding buckets leaves key 2 in two buckets with `len` 2 |
| HashTableIntended.RemoveLeavesStaleCopy | src/hash.rs:230-256 | removing key 2 from that table leaves `get(2)` returning the stale value |
| HashTableIntended.WriteSlot | src/hash.rs:149-162 | the corrected scan's bucket is a stop for the key, and every bucket before it on the path is non-empty without the key |
| HashTableIntended.WriteSlotFindsKey | src/hash.rs:149-162 | when the key is stored, the corrected scan writes to its bucket |
| HashTableIntended.InsertIntended | src/hash.rs:164-181 | the corrected insert stores the key, grows as the code does, and keeps `len` exactly when it returns the old value |
| HashTableIntended.InsertIntendedUpdatesEntries | src/hash.rs:164-181 | without any tombstone precondition, the corrected insert keeps the invariant and uniqueness, returns the old `get`, and updates the map at the key alone |
| HashTableIntended.WriteSlotUpdates | src/hash.rs:149-181 | writing at the corrected scan's bucket keeps every entry reachable and every key unique, replaces the key's pair alone, and overwrites a live entry exactly when `get` finds one |
| HashTableIntended.GetAfterInsertIntended | src/hash.rs:164-201 | after the corrected insert, `get(k)` returns v |
| HashTableIntended.FirstStopUnique | src/hash.rs:149-162 | the first stop of a probe is unique |
| HashTableIntended.AgreesWithoutTombstones | src/hash.rs:149-181 | on a table without tombstones the corrected insert equals the code's |
| Lru.New | src/lib.rs:28-36 | an empty cache with the capacity as given, zero included |
| Lru.Detach | src/lib.rs:40-62 | only links change (keys, values and index kept), and the slot's own links are cleared |
| Lru.PushFront | src/lib.rs:64-76 | only links change and the slot becomes the head |
| Lru.Access | src/lib.rs:78-87 | only links change and the key's slot becomes the head |
| Lru.RemoveTail | src/lib.rs:89-96 | with a tail, its key leaves the index and its value is cleared; other values kept; an empty list is unchanged |
| Lru.Insert | src/lib.rs:100-124 | the key ends at the head with the value; a cached key returns its old value with the same index and arena size; a new key returns nothing and takes exactly one new arena slot |
| Lru.EvictIfFull | src/lib.rs:108-110 | a cache holding `capacity` keys drops the tail's key from the index; otherwise it is unchanged; no key is added and the arena keeps its size |
| Lru.AddFront | src/lib.rs:112-121 | the fresh slot holds the key and value, becomes the head and is indexed under the key; the arena grows by exactly one slot |
| Lru.Get | src/lib.rs:126-134 | a hit makes the key the head and returns its value, without changing keys or values; a miss changes nothing |
| Lru.GetMut | src/lib.rs:136-144 | a returned handle is the key's slot and holds a value |
| Lru.SetAt | src/lib.rs:136-144 | a write through the `as_mut()` handle `get_mut` returns (and the `val.replace` of `src/lib.rs:102`) sets that slot's value and nothing else |
| Lru.Append | src/lib.rs:113-118 | the new entry goes at the end of the arena; the index, head, tail and capacity are unchanged and every link stays in range |
| Lru.Remove | src/lib.rs:146-151 | the key leaves the index, a hit returns the slot's value and clears it, the arena keeps its size, a miss changes nothing |
| Lru.Contains | src/lib.rs:153-155 | a contained key means the cache is not empty |
| Lru.Len | src/lib.rs:157-159 | `len` is zero exactly when no key is indexed |
| Lru.IsFull | src/lib.rs:161-163 | with capacity 0, `is_full` holds exactly while the cache is empty; with a positive capacity a full cache is not empty |
| Lru.IsEmpty | src/lib.rs:165-167 | `is_empty` holds exactly when `len` is zero, that is when no key is indexed |
| LruModel.Without | src/lib.rs:40-62 | the sequence minus one element, keeping order and uniqueness; one shorter when the element was present |
| LruModel.MakeRoom | src/lib.rs:108-110 | a full non-empty cache drops its last (least recent) key and that key's value; otherwise unchanged |
| LruModel.ModelInsert | src/lib.rs:100-124 | the key becomes most recent with the value; the old value is returned if there was one |
| LruModel.ModelGet | src/lib.rs:126-134 | a hit returns the value and makes the key most recent; values unchanged; a miss changes nothing |
| LruModel.ModelRemove | src/lib.rs:146-151 | `remove`: the key is no longer cached, the capacity is kept, and the key's value is returned when it was cached |
| LruModel.InsertKeepsInv | src/lib.rs:100-124 | insert keeps each cached key listed exactly once |
| LruModel.RemoveKeepsInv | src/lib.rs:146-151 | remove keeps each cached key listed exactly once |
| LruModel.RemoveAbsent | src/lib.rs:146-151 | removing a key that is not cached changes nothing and returns nothing |
| LruProofs.AbsIsModel | src/lib.rs:9-22 | a consistent cache abstracts to a consistent model whose size is `len` and whose keys are the index's keys |
| LruProofs.WithoutAt | src/lib.rs:40-62 | in a list without repeats, dropping an element is cutting it out at its position |
| LruProofs.KeysWithout | src/lib.rs:40-62 | cutting a slot out of the list drops exactly its key from the key sequence |
| LruProofs.DetachLinked | src/lib.rs:40-62 | `detach` of a listed slot, whether head, tail, both or inner, leaves the list linked in the old order with that slot cut out |
| LruProofs.PushFrontLinked | src/lib.rs:64-76 | `push_front` of an unlisted slot leaves the list linked with that slot first |
| LruProofs.MoveToFrontLinked | src/lib.rs:100-106 | detach then push_front yields the list with the slot first and the others in their old order |
| LruProofs.AccessLinked | src/lib.rs:78-87 | `access` yields the list with the key's slot first, including the already-head no-op |
| LruProofs.NewRefines | src/lib.rs:28-36 | `new` is consistent and abstracts to the empty model |
| LruProofs.GetRefines | src/lib.rs:126-134 | `get` keeps the invariant and refines the model's `get` (recency and result) |
| LruProofs.SetAtKeepsInv | src/lib.rs:136-144 | writing through a listed slot keeps the invariant and updates only that key's value |
| LruProofs.InsertExistingRefines | src/lib.rs:100-106 | updating a cached key refines the model: moved to the front, new value, old value returned |
| LruProofs.UnlinkKeepsInv | src/lib.rs:89-96 | unlinking a listed slot and dropping its key keeps the invariant and drops only that key's value |
| LruProofs.EvictRefines | src/lib.rs:108-110 | evicting when full refines the model's `MakeRoom`: the last key in the list and its value go |
| LruProofs.AddFrontRefines | src/lib.rs:112-123 | the fresh slot at the front keeps the invariant, puts the key first and adds its value |
| LruProofs.InsertRefines | src/lib.rs:100-124 | `insert` keeps the invariant and refines the model's `insert` in state and result |
| LruProofs.RemoveRefines | src/lib.rs:146-151 | `remove` keeps the invariant and refines the model's `remove`: key gone, others in order, value returned |
| LruProofs.GetMutRefines | src/lib.rs:136-144 | `get_mut` refines `get`'s recency change, hands out a slot exactly on a hit, and a write through it updates that key's value |
| LruProofs.QueriesRefine | src/lib.rs:153-167 | `contains`, `len`, `is_full` and `is_empty` answer as the model's key set and size |
| LruProofs.LenWithinCapacity | src/lib.rs:108-110 | with capacity at least 1, `insert` never takes `len` above the capacity |
| LruProofs.InsertEvictsTail | src/lib.rs:108-110 | a new key in a full cache evicts exactly the tail key; `len` and every other key's value are kept |
| LruProofs.ZeroCapacityGrows | src/lib.rs:28-36 | with capacity 0, every new key grows `len` by one and nothing is evicted |
| LruScenarios.ReadProtectsFromEviction | tests/custom_hashmap_test.rs:50-64 | capacity 2: insert 1, 2; get 1; insert 3: key 2 is gone, 1 and 3 keep 10 and 30. The test is commented out; its note blames a `remove_from_list()` that `src/lib.rs` does not define. The lemma shows that `detach` (`src/lib.rs:40-62`) relinks correctly, so the test's expectation holds |
| LruScenarios.ReadBothThenEvict | tests/custom_hashmap_test.rs:31-48 | capacity 2: insert 1, 2; get 1, get 2; insert 3: key 1 is gone, 2 and 3 keep 20 and 30 |
| LruScenarios.CapacityOne | tests/custom_hashmap_test.rs:143-153 | capacity 1: insert 1, then 2: only 2 remains |
| LruScenarios.UpdateReturnsOld | tests/custom_hashmap_test.rs:23-29 | inserting 1 again returns 10; `get(1)` then reads 100 and `len` stays 1 |
| LruScenarios.RemoveReturnsValue | tests/custom_hashmap_test.rs:66-78 | remove 2 returns 20, leaves `len` 2 and 2 absent; remove 99 returns nothing |
| LruScenarios.GetMutWrite | tests/custom_hashmap_test.rs:121-131 | a write of 100 through `get_mut(1)` is what `get(1)` reads next |

## Left out

- The inline assembly, raw pointers and `unsafe` of `look_up_identifier` (`src/hash.rs:1-50`). Only the digest's value is modelled. The two instruction sequences compute the same value when register allocation keeps the operands apart.
- Register allocation for the macOS block (`src/hash.rs:25-50`). Its result is declared `lateout("w0")` and its operands `in(reg)`, so the allocator may give `x0` (or the clobbered `x1`, `x2`) to `data` or `len`. The block writes `w0` and `x1` before it reads `{data}` and `{len}` again, so such a placement would corrupt the second load. The model assumes the operands stay in their own registers.
- `Clone` and `Default` (`src/hash.rs:112-119`, `src/hash.rs:293-316`). They rebuild or delegate and carry no logic of their own.
- The benchmarks and `src/main.rs`. The demo's inputs "hello" and "ab" appear as `KeyDigest.DemoVectors`.
- The internals of the std `HashMap` behind `LRUCache`. It is a Dafny `map`.
- Machine-integer overflow of `len * 4`, `next_power_of_two`, `len += 1` and arena indices. All counts are `nat`.
- Amortised cost, memory footprint and the arena's growth as a resource. The arena growth itself is stated: `Lru.Insert`, `Lru.Remove`.
- Mutable references. `get_mut` on the table returns the bucket index. On the cache it returns the arena slot, and `Lru.SetAt` writes through it.
- HashTable.Resize: requires that the live entries fit below 75% of the new size. Its only caller, `ensure_capacity`, always doubles a table at that threshold, so the condition always holds there.
- Lru operations require `LinksInRange`: every link and index names an arena slot. The source relies on this for its indexing not to panic, and every operation preserves it.
- Lru.Remove: the source unwraps the slot's value and would panic on an empty one. The model returns the optional value instead. Under the cache invariant the value is always present (`LruProofs.RemoveRefines`).
- `tests/custom_hashmap_test.rs:155-165` calls `empty()`, which the cache does not define. Only `is_empty` is modelled (`LruProofs.QueriesRefine`).

## Findings

| source | as written | input that shows it | evidently intended | confidence | as-written member | corrected member |
|---|---|---|---|---|---|---|
| src/hash.rs:149-162 | `first_removed` is never assigned, so `find_slot` returns at the first `Removed` bucket. `insert` writes a new entry there even when the key sits further along the probe path. | Four buckets, every key hashed to bucket 0: insert(1,10), insert(2,20), remove(1), insert(2,30). Key 2 ends up in buckets 0 and 1 with `len` 2, and after remove(2), `get(2)` still returns 20. | Remember the first tombstone and keep scanning until the key or an empty bucket. If the key is found, update it in place; otherwise write at the remembered tombstone. | not executed | HashTableIntended.TombstoneDuplicatesKey | HashTableIntended.InsertIntendedUpdatesEntries |
