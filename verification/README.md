# Hash maps: open addressing and separate chaining

A Dafny model of the two hash-map classes of the HashMaps repository and
of the `find_mode` function built on the second one.

* **Open addressing with quadratic probing** (`hash_map_oa.py`, module
  `OpenAddressing`, with the probe semantics in `Probing`).  Each bucket
  is a `Slot`: `Empty` (Python `None`), `Live(key, value)` or
  `Tomb(key, value)` (a `HashEntry` with `is_tombstone` set, which keeps its
  key and value).  The class keeps the bucket array, the size and the
  capacity as fields; its methods update them in place and are proved
  against functions on `buckets[..]`.
  * `Placed`, `Lookup`, `Member` and `Tombstoned` are what the probing loops
    of `put`, `get`, `contains_key` and `remove` do.
  * `Locate`/`FirstStop` find the first probe step `(home + i*i) % capacity`
    at which a loop stops.
  * `Valid()` ties the size to the number of live slots.
  * `Coherent` says every live slot is the one `get` finds for its key, so
    no key is live twice.
* **Separate chaining** (`hash_map_sc.py`, module `SeparateChaining`, with
  the chain lemmas in `Chains`).  Each bucket is a chain `seq<(K, V)>` in
  an array.  A ghost field `Contents: map<K, V>` is the map the buckets
  store.  `Valid()` says four things: every pair sits in bucket
  `hash(key) % capacity`, no key occurs twice, each chain agrees with
  `Contents`, and the size is the number of keys.
* **`find_mode`** counts the elements of a sequence with `find_mode_put` in
  a chained table of capacity `len / 3`.  It returns the largest count and,
  once each, the elements that have it.

The hash function is a parameter `K -> nat`.  Keys are any type with
equality.

### Behaviour of the open-addressing code as written

The model follows hash_map_oa.py as written, which behaves in these ways a
caller may not expect:

* **The load can reach one half.**  `put` tests `size / capacity >= 0.5`
  before it inserts (hash_map_oa.py:66).  So the load after a `put` can be
  exactly 0.5 for an even capacity, and above 0.5 for an odd one: with
  capacity 3 the second `put` runs at load 1/3 and leaves 2 of the 3 slots
  live (`ProbingExamples.OddCapacityPassesHalf`).  It is not always below
  0.5.  `OpenAddressing.HashMap.Put` promises `2 * size <= capacity + 2`.
* **`contains_key` matches tombstones.**  It stops at any non-empty slot
  holding the key, tombstoned or not (hash_map_oa.py:194).  After
  `remove(k)` it can answer true while `get(k)` answers None
  (`ProbingExamples.ContainsSeesTombstone`).
* **Probe loops need not end.**  Quadratic probing from slot `h` reaches
  only the slots `h + i*i` modulo the capacity, and the squares modulo the
  capacity are few: modulo 4 they are 0 and 1, modulo 8 they are 0, 1 and 4,
  and modulo an odd prime `p` there are `(p + 1) / 2` of them (0, 1, 2 and 4
  modulo 7).  Once the reachable slots are all live with other keys, a probe
  never stops.  So `get`, `contains_key` and `remove` can loop forever at
  load 1/2 with capacity 4 (`ProbingExamples.ProbesSpinAtHalfLoad`), and
  `put` can loop forever at load 3/8 with capacity 8
  (`ProbingExamples.PutSpinsBelowHalfLoad`).
  * The model looks at `capacity` steps; `ProbeCycle` shows the probe
    repeats with that period, and `SpinsForever` that a loop which has not
    stopped within `capacity` steps never stops.
  * Such a call returns `Spins`, or the flag `false` for `put`, `remove`
    and `resize_table`.
* **`put` can store a key twice.**  `put` reuses the first tombstone on the
  probe path even when the key is live further on.  The key then has two
  live entries (`ProbingExamples.ReusedTombstoneDuplicatesKey`), and the
  table is no longer `Coherent`.  `Probing.PlacedKeepsCoherent` shows this
  is the only way `put` breaks coherence.  So the content claims of `put`
  and `resize_table` are proved for coherent tables, and those of `put`
  on a key already present for tables that have no tombstones or that
  `put` resizes first.
* **Termination of `put` and `resize_table`.**  Each calls the other:
  `put` resizes to twice the capacity, and `resize_table` re-inserts every
  live entry through `put`.  The recursion ends because each nested `put`
  runs at a size below that of the `resize_table` that called it.
  * A nested `put` resizes again only when `resize_table(n)` is called
    directly with `2 * (size - 1) >= n`.  The resize inside `put` holds at
    most `capacity` entries and moves them into `2 * capacity` slots, so
    no nested `put` resizes and the capacity ends exactly doubled.

## Model

| member | source | states |
|---|---|---|
| Probing.ProbeIndex | hash_map_oa.py:70-73 | the probe index `(home + i*i) % capacity` is a slot of the table |
| Probing.FirstStop | hash_map_oa.py:74-90 | the first probe step at or after `i` where the loop stops: it stops there and at no earlier step; `None` means no step below the capacity stops it |
| Probing.Locate | hash_map_oa.py:160-172 | the slot a probe for `k` stops at lies in the table and is a slot where that loop stops |
| Probing.Lookup | hash_map_oa.py:160-173 | the result of `get(k)`'s loop: a value it returns is that of a live entry `(k, v)` of the table, and None is returned only at an empty slot |
| Probing.Member | hash_map_oa.py:189-199 | the result of `contains_key(k)`'s loop: true only when some non-empty slot, live or tombstoned, holds `k`, and false only at an empty slot |
| Probing.Placed | hash_map_oa.py:68-90 | the slots after `put(k, v)`'s loop: as many as before, with `(k, v)` live among them |
| Probing.Tombstoned | hash_map_oa.py:210-224 | the slots after `remove(k)`'s loop: as many as before, and a slot that changed was a live entry with key `k` and is now its tombstone |
| Probing.ProbeCycle | hash_map_oa.py:90 | the probe index is periodic in the step with period `capacity` |
| Probing.SpinsForever | hash_map_oa.py:74-90 | a probe that does not stop within `capacity` steps never stops: the source loop runs forever |
| Probing.LiveCountBound | hash_map_oa.py:77 | there are at most `capacity` live slots |
| Probing.PrefixStep | hash_map_oa.py:112-117 | the live count, the bag of live pairs and the list of live keys of a prefix grow by the next slot |
| Probing.LiveCountPrefix | hash_map_oa.py:142-144 | a live slot is not counted in the prefix before it |
| Probing.LiveCountUpdate | hash_map_oa.py:76-86 | writing one slot changes the live count by the liveness of the old and the new slot |
| Probing.LiveBagUpdate | hash_map_oa.py:76-86 | writing one slot swaps its pair in the bag of live pairs |
| Probing.LiveBagCount | hash_map_oa.py:77 | the bag of live pairs holds one pair per live slot |
| Probing.LiveBagMember | hash_map_oa.py:143-144 | a pair is in the bag exactly when some slot holds it live |
| Probing.LiveKeysMember | hash_map_oa.py:243-247 | the listed keys are one per live slot, and exactly the keys of live slots |
| Probing.AbsentByBag | hash_map_oa.py:143-144 | no live slot holds key `k` exactly when no pair of the bag carries `k` |
| Probing.BlankCounts | hash_map_oa.py:229-232 | a table of empty slots has no live slot, an empty bag and no keys |
| Probing.BlankTable | hash_map_oa.py:20-22 | a table of empty slots has nothing live and no tombstones, and is coherent |
| Probing.PlacedLocates | hash_map_oa.py:74-90 | after `put`'s loop writes `k`, `get`'s probe for `k` stops at the slot written |
| Probing.PlacedThenLookup | hash_map_oa.py:74-90 | `get(k)` right after `put(k, v)`'s loop returns `v` |
| Probing.PlacedEffect | hash_map_oa.py:74-90 | `put`'s loop changes one slot only. Into an empty or tombstoned slot it adds one live slot; on a live slot the key is `k` and the live count is unchanged. Afterwards `get(k)` returns `v`. The pair `(k, v)` replaces the live pair of the slot written, if any: when `k` was absent the bag gains `(k, v)`, and on a table without tombstones `(k, v)` replaces the pair `get(k)` returned. A table without tombstones gets none. A coherent table stays coherent when it has no tombstones or `k` was absent |
| Probing.PlacingFindsSame | hash_map_oa.py:74-90 | when `put`'s loop stops at an empty slot or a live entry, `get`'s loop for the same key stops at the same slot, and a live entry there holds `k` |
| Probing.PlacedKeepsLocate | hash_map_oa.py:74-90 | `put(k, v)`'s loop does not move where `get` finds a live entry of another key |
| Probing.PlacedKeepsOthers | hash_map_oa.py:74-90 | every other key keeps the value `get` returns for it |
| Probing.PlacedKeepsCoherent | hash_map_oa.py:74-90 | on a coherent table, `put(k, v)` leaves it coherent exactly when `k` was absent or the slot written is not a tombstone |
| Probing.TombstonedBag | hash_map_oa.py:214-224 | `remove(k)` ends when `get(k)` does. It takes out exactly the pair `get(k)` returned and lowers the live count by one, or changes nothing when `get(k)` is None |
| Probing.TombstonedHidesKey | hash_map_oa.py:214-224 | on a coherent table `remove(k)` keeps it coherent, leaves no live `k`, and `get(k)` then finds no value |
| Probing.LookupMeansLive | hash_map_oa.py:164-173 | on a coherent table `get(k)` returns `v` exactly when `(k, v)` is a live pair |
| Probing.LookupThenMember | hash_map_oa.py:193-195 | when `get(k)` finds a value, `contains_key(k)` answers true |
| Probing.CoherentPrefixAbsent | hash_map_oa.py:142-144 | in a coherent table the slots before a live one do not hold its key live, so re-inserting in slot order never meets a duplicate |
| OpenAddressing.HalfLoad | hash_map_oa.py:66 | the load `size / capacity` is non-negative, and at least one half exactly when `2 * size >= capacity` |
| OpenAddressing.HashMap.constructor | hash_map_oa.py:14-26 | `capacity` empty slots, size 0, the given hash function |
| OpenAddressing.HashMap.GetSize | hash_map_oa.py:38-43 | the size, which is the number of live slots and at most the number of slots |
| OpenAddressing.HashMap.GetCapacity | hash_map_oa.py:45-50 | the capacity, which is the number of slots, at least 1 |
| OpenAddressing.HashMap.TableLoad | hash_map_oa.py:92-101 | the load is non-negative, and at least one half exactly when `2 * size >= capacity` |
| OpenAddressing.HashMap.Place | hash_map_oa.py:68-90 | the probing loop of `put`: the new slots are `Placed(old slots, k, v)` when the loop ends, and unchanged when it never does; the size stays the live count |
| OpenAddressing.HashMap.Put | hash_map_oa.py:54-90 | at load of one half or more the capacity doubles first, exactly, and otherwise the slots become `Placed`. The capacity never shrinks and the size grows by at most one. Afterwards `get(k)` returns `v`. A table without tombstones gets none. On a coherent table: when `k` was absent, the table stays coherent and the bag gains `(k, v)`; when `get(k)` returned `w` and the table had no tombstones or was resized, it stays coherent and `(k, v)` replaces `(k, w)` in the bag |
| OpenAddressing.HashMap.Resize | hash_map_oa.py:119-144 | `n < 1` or `n < size` changes nothing. Otherwise the result is a fresh table of capacity at least `n`, and exactly `n` when `2 * size <= n`, without tombstones. On a coherent table it holds the same live pairs, with the same size |
| OpenAddressing.HashMap.Get | hash_map_oa.py:146-173 | returns `Lookup`: the value of the first live entry for `k` on the probe path, None at an empty slot, `Spins` when the loop never ends |
| OpenAddressing.HashMap.ContainsKey | hash_map_oa.py:175-199 | returns `Member`: true at the first non-empty slot holding `k`, tombstoned or not |
| OpenAddressing.HashMap.Remove | hash_map_oa.py:201-224 | the slots become `Tombstoned(old slots, k)`. When `get(k)` found a value, the size drops by one and that pair leaves the bag; when `get(k)` was None, nothing changes |
| OpenAddressing.HashMap.Clear | hash_map_oa.py:226-232 | every slot empty, size 0, the same capacity, and `get_keys` empty |
| OpenAddressing.HashMap.GetKeys | hash_map_oa.py:234-247 | the live keys in slot order, one per live slot (so `size` of them), and exactly the keys of live slots |
| OpenAddressing.HashMap.EmptyBuckets | hash_map_oa.py:103-117 | the number of empty or tombstoned slots is `capacity - size` |
| ProbingExamples.PutsFillSlotsOneAndTwo | hash_map_oa.py:74-90 | with capacity 4, two `put`s of keys hashed to 1 fill slots 1 and 2 |
| ProbingExamples.ProbesSpinAtHalfLoad | hash_map_oa.py:164-172 | in that table `get`, `contains_key` and `remove` of a third key never leave their loops |
| ProbingExamples.OddCapacityPassesHalf | hash_map_oa.py:66-90 | with capacity 3 a second `put`, at load 1/3 and so without a resize, leaves 2 of 3 slots live |
| ProbingExamples.PutFillsProbePath | hash_map_oa.py:74-90 | with capacity 8, three `put`s of keys hashed to 1 fill slots 1, 2 and 5, all the probe can reach |
| ProbingExamples.LateStepsPass | hash_map_oa.py:88-90 | steps 4 to 7 of that probe revisit slots 1, 2, 5 and 2 |
| ProbingExamples.PutSpinsBelowHalfLoad | hash_map_oa.py:66-90 | a fourth `put` at load 3/8, so without a resize, never places its key |
| ProbingExamples.ReusedTombstoneDuplicatesKey | hash_map_oa.py:79-84 | after `PutsFillSlotsOneAndTwo` and `remove(1)`, `put` into a tombstone ahead of the key's live entry leaves the key live twice; `remove` then hides only the first, and `get` returns the older value again |
| ProbingExamples.DuplicateIsIncoherent | hash_map_oa.py:164-169 | the table with the key live twice is not coherent |
| ProbingExamples.ContainsSeesTombstone | hash_map_oa.py:193-195 | after `put(1)` and `remove(1)`, `contains_key(1)` is true while `get(1)` is None |
| Chains.Find | hash_map_sc.py:85 | the first position of key `k` in a chain, or `None` when the key is not in it |
| Chains.Delete | hash_map_sc.py:234 | the list's `remove(k)`: a chain without `k` is unchanged, and otherwise exactly the first pair with `k` leaves it |
| Chains.TotalEntriesUpdate | hash_map_sc.py:87-88 | replacing one chain changes the number of pairs by the difference in length |
| Chains.RepresentsEmpty | hash_map_sc.py:28-30 | `n` empty chains store the empty map, and all `n` count as empty |
| Chains.FindRepresents | hash_map_sc.py:191-196 | a key is stored exactly when `Find` sees it in its bucket, and the pair found holds the stored value |
| Chains.RepresentsInsert | hash_map_sc.py:86-88 | adding the pair of a new key to the front of its bucket stores the map with that key added |
| Chains.InsertAgrees | hash_map_sc.py:86-88 | after the insert every pair sits in its bucket and agrees with the new map |
| Chains.InsertCovers | hash_map_sc.py:86-88 | after the insert every key of the new map is in its bucket |
| Chains.InsertDistinct | hash_map_sc.py:86-88 | after the insert of a new key no chain holds a key twice |
| Chains.RepresentsOverwrite | hash_map_sc.py:89-90 | overwriting the value of the pair of a stored key stores the map with that key's value replaced |
| Chains.OverwriteAgrees | hash_map_sc.py:89-90 | after the overwrite every pair agrees with the new map |
| Chains.OverwriteCovers | hash_map_sc.py:89-90 | after the overwrite every key of the new map is still in its bucket |
| Chains.OverwriteDistinct | hash_map_sc.py:89-90 | the overwrite keeps the keys of each chain distinct |
| Chains.RepresentsDelete | hash_map_sc.py:232-236 | deleting the pair of a stored key from its bucket stores the map without the key |
| Chains.DeleteAgrees | hash_map_sc.py:232-236 | after the delete every pair agrees with the map without the key |
| Chains.DeleteCovers | hash_map_sc.py:232-236 | after the delete every remaining key is still in its bucket |
| Chains.DeleteDistinct | hash_map_sc.py:232-236 | the delete keeps the keys of each chain distinct |
| Chains.DeleteAbsent | hash_map_sc.py:234 | removing a key that is not stored leaves its bucket as it was |
| Chains.RepresentsRemove | hash_map_sc.py:232-236 | `remove(k)`, stored or not, leaves the map without `k`; the size drops by one exactly when `k` was stored |
| Chains.RehashStep | hash_map_sc.py:169-172 | moving the next pair to the front of its bucket in the new table keeps the new table storing what has been moved |
| Chains.RehashDone | hash_map_sc.py:166-175 | after every bucket the new table holds the whole map |
| Chains.ChainKeysAt | hash_map_sc.py:250-251 | the keys listed from a chain are its keys, front to back |
| Chains.KeysOfLength | hash_map_sc.py:247-252 | one listed key per stored pair |
| Chains.KeysOfMember | hash_map_sc.py:247-252 | the listed keys are those of the pairs |
| Chains.KeysOfDistinct | hash_map_sc.py:247-252 | keys listed bucket by bucket are distinct when each chain has distinct keys hashing to its own index |
| Chains.KeysOfRepresents | hash_map_sc.py:247-252 | `get_keys` lists every stored key exactly once and nothing else, so it lists `size` keys |
| Chains.EmptyCountBounds | hash_map_sc.py:121-125 | between `capacity - size` and `capacity` buckets are empty, and all are exactly when there are no pairs |
| SeparateChaining.HashMap.constructor | hash_map_sc.py:26-34 | `capacity` empty chains, size 0, the empty map |
| SeparateChaining.HashMap.Put | hash_map_sc.py:72-90 | the map becomes `old[k := v]`; the size grows by one exactly when `k` was new; other buckets are unchanged |
| SeparateChaining.HashMap.FindModePut | hash_map_sc.py:92-110 | a stored key's value becomes `old + v`, and a new key is stored with `v`; the size grows by one exactly when `k` was new; other buckets are unchanged |
| SeparateChaining.HashMap.GetSize | hash_map_sc.py:50-59 | the size, which is the number of stored keys |
| SeparateChaining.HashMap.GetCapacity | hash_map_sc.py:61-70 | the capacity, which is the number of buckets |
| SeparateChaining.HashMap.EmptyBuckets | hash_map_sc.py:112-125 | the number of empty chains, which is between `capacity - size` and `capacity`, and is `capacity` exactly when the map is empty |
| SeparateChaining.HashMap.TableLoad | hash_map_sc.py:127-136 | the load is non-negative, zero exactly when the map is empty, and at most 1 exactly when `size <= capacity` |
| SeparateChaining.HashMap.Clear | hash_map_sc.py:138-144 | every bucket empty, size 0, the empty map, the same capacity |
| SeparateChaining.HashMap.ResizeTable | hash_map_sc.py:146-175 | `n < 1` changes nothing. Otherwise the capacity becomes exactly `n` with a fresh array, and the map and the size stay the same even when `n < size` |
| SeparateChaining.Rehash | hash_map_sc.py:162-172 | a fresh array of `n` buckets that stores the same map as the old table |
| SeparateChaining.MoveChain | hash_map_sc.py:167-172 | moving one old bucket into the new table keeps it storing exactly the pairs moved so far |
| SeparateChaining.HashMap.Get | hash_map_sc.py:177-196 | the stored value of `k`, or None when `k` is not stored |
| SeparateChaining.HashMap.ContainsKey | hash_map_sc.py:198-221 | true exactly when `k` is stored (false at once on an empty map) |
| SeparateChaining.HashMap.Remove | hash_map_sc.py:223-236 | the map loses `k`; the size drops by one exactly when `k` was stored; other buckets are unchanged |
| SeparateChaining.HashMap.GetKeys | hash_map_sc.py:238-252 | the keys bucket by bucket in index order; each stored key exactly once, `size` of them |
| SeparateChaining.TallyStep | hash_map_sc.py:279-280 | counting one more element starts a new key at 1 and raises a known one by 1 |
| SeparateChaining.ModesStep | hash_map_sc.py:284-291 | a higher count restarts the modes with the key, an equal one joins it to them, and a lower one is passed over. Each way keeps the modes the keys of the highest count seen, once each |
| SeparateChaining.CountAll | hash_map_sc.py:278-280 | a table of capacity `len / 3` mapping each element to its multiplicity |
| SeparateChaining.PickModes | hash_map_sc.py:282-293 | the highest count (1 when there are no keys) and, once each, exactly the keys with it |
| SeparateChaining.FindMode | hash_map_sc.py:255-293 | the largest multiplicity (1 for an empty input) and exactly the elements that have it, each once; one of them at least when the input is not empty |

## Left out

- `__str__` of both classes and the printing drivers under `if __name__ == "__main__":` produce output only.
- `DynamicArray`, `LinkedList`, `SLNode`, `HashEntry`, `hash_function_1` and `hash_function_2` (`a6_include`, `hm_include`) are not part of this model. Arrays and sequences stand for the dynamic arrays, and `Slot` for a hash entry. Each class takes its hash function as a parameter `K -> nat`.
- The linked list's `insert` is taken to put the new pair at the front of a chain. No contract depends on where in a chain a pair sits, and `get_keys` is stated bucket by bucket.
- Aliasing is not modelled. The source updates a `HashEntry` or a list node in place through a reference (`node.value = value`, `is_tombstone = True`). The model writes a new slot or pair into the bucket instead.
- `table_load` returns a float in the source. The model computes the exact rational `size / capacity` as a `real`; `put`'s test `>= 0.5` is the same on both.
- Python's `None` can also be stored as a value. The model's `Option` tells a stored None apart from a missing key, which the source cannot.
- OpenAddressing.HashMap.constructor: requires capacity at least 1, so the model has no table of capacity 0. In the source such a table fails at the first `put`, `get`, `contains_key`, `remove` or `table_load` (modulo or division by zero), while `get_keys`, `empty_buckets` and `clear` work on it, and `resize_table(n)` with `n >= 1` turns it into a working table of capacity `n`. That path is not modelled.
- OpenAddressing.HashMap.Put: the final slots are given by `Placed` only when no resize happens. After a resize the contract says what `get(k)` returns and, on a coherent table, the live pairs and coherence. Without a resize, on a coherent table with tombstones where `k` is present, the contract says nothing about the live pairs: there `put` can leave `k` live twice.
- OpenAddressing.HashMap.Resize: keeps the live pairs and the size only for a coherent table. On a table with a key live twice, the re-inserting `put`s can merge the two entries.
- OpenAddressing.HashMap.Get, ContainsKey, Remove, Put, Resize: a probe loop that never ends in the source is reported as `Spins` or `false` after `capacity` steps, instead of running forever.
- SeparateChaining.HashMap.Put, FindModePut, Get, Remove: require capacity at least 1. The source divides by zero on a table of capacity 0.
- SeparateChaining.HashMap.TableLoad and OpenAddressing.HashMap.TableLoad: require capacity at least 1, for the same reason.
- SeparateChaining.HashMap.FindModePut: the addition of values is a parameter `plus`, because the class is generic in the value type. `find_mode` passes integer addition.
- SeparateChaining.FindMode: requires that the input does not have exactly two elements. Two elements build a table of capacity `2 // 3 == 0`, whose first `find_mode_put` divides by zero. An empty input builds the same table but never uses it, and returns no modes with frequency 1.
