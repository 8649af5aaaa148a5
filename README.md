# Fixed-capacity hash tables with a collision counter

This project is a Dafny model of two teaching hash tables from a Java collections library. Each table has a fixed capacity. Each one also records in `collisions` how many occupied positions the most recent `put` had to step over.

- **Open addressing with linear probing** (`Table.java`). Module `OpenAddressing`, class `Table` in `table.dfy`.
  - Three parallel arrays: `keys`, `data` and `hasBeenUsed`.
  - A new key goes to the first slot with a null key on its probe path. The probe path starts at the key's home slot `hash(key)` and steps with `nextIndex`.
  - `remove` nulls the key and the element but leaves `hasBeenUsed` set. The slot becomes a tombstone that later searches walk past.
  - The class invariant is the one the Java comment states. The model adds the probe-path property that makes searching correct: every slot from a stored key's home slot to its own slot has been used.
  - A ghost map `Position` records the slot of each stored key. `Contents()` is the key-to-element mapping the table represents.
  - The probing loop of `put` is its own method, `ProbeFree`. It updates `collisions` in place, as the loop in `put` does.
- **Separate chaining** (`TableChainHash.java`). Module `Chaining`, class `TableChainHash` in `table_chain_hash.dfy`.
  - Each bucket holds two parallel chains: elements in `table[i]` and their keys in `keys[i]`. Each chain is a sequence listed from the head node, and the empty sequence stands for a null head.
  - `Lookup(k)` is the entry a walk of `k`'s bucket finds.
- **Shared index arithmetic** (`hashing.dfy`, module `Hashing`): the home slot, the wrap-around step, and the probe sequence they generate.
- **Outcome types** (`wrappers.dfy`): `Option` for Java `null` and `Result`/`Error` for thrown exceptions.

Keys are any equality type. The absolute value of a key's hash code is a function `hashCode: K -> nat` that the table is given when it is created. The home slot is that value modulo the capacity.

`TableChainHash.java` reuses the method names and doc comments of the open-address class, but its code does something else. The model follows the code:
- `put` always links the new pair in at the head of the bucket. The scan before it always runs to the end of the chain, so the replace branch (`TableChainHash.java:228-232`) is never reached. A key put twice has two entries, and the newer one shadows the older.
- `manyItems` is never incremented. The "Table is full." branch is therefore never reached, and the invariant records `manyItems <= 0`.
- `remove` of a key found at the head of its bucket sets the bucket to null. That drops every other entry in the bucket as well.
- `hasBeenUsed` is allocated but never set, so `findIndex` answers -1 and `containsKey` answers false for every key.
- `get` of a key that is missing from a non-empty bucket walks off the end of the chain. The model makes this a precondition.

For `Table.java`, the model also follows the code on two points where a reading of its documentation suggests otherwise:
- Search stays correct after removals. `findIndex` keeps probing while `hasBeenUsed` is set, and `remove` never clears that flag, so a tombstone never ends a search early. The invariant below proves this.
- A new key's probe stops at the first slot whose key is null, tombstones included, and reuses it. Only slots that hold a key count as collisions.

## Model

| member | source | states |
|---|---|---|
| Hashing.Hash | Table.java:129-135 | the home slot is below the capacity, and a hash code already below the capacity is its own slot |
| Hashing.NextIndex | Table.java:138-146 | the next slot is below the capacity and equals `(i + 1) % capacity` |
| Hashing.Probe | Table.java:93-98 | the slot reached after `j` steps from home slot `h` is below the capacity and equals `(h + j) % capacity` |
| Hashing.Dist | Table.java:93-98 | the number of steps from `h` to slot `i` is below the capacity, and that many steps from `h` reach `i` |
| Hashing.ProbeStep | Table.java:97-98 | one `nextIndex` advances the probe sequence from step `j` to step `j + 1` |
| Hashing.ProbeVisitsOnce | Table.java:93-98 | the step count of the slot reached after `j` steps is `j`, so the first `capacity` steps visit each slot once |
| Hashing.ProbeInjective | Table.java:93-98 | two step counts below the capacity that reach the same slot are equal |
| OpenAddressing.CountKeys | Table.java:23-24 | the number of non-null keys never exceeds the number of slots |
| OpenAddressing.CountKeysFull | Table.java:183 | the count equals the capacity exactly when every slot holds a key, so `manyItems < capacity` leaves a free slot |
| OpenAddressing.CountKeysEmpty | Table.java:53-57 | the count is 0 exactly when no slot holds a key, as in a freshly allocated table |
| OpenAddressing.CountKeysUpdate | Table.java:190-193 | writing one key slot changes the count by the key that leaves and the key that arrives, which is why `manyItems++` and `manyItems--` keep it exact |
| OpenAddressing.FreeSlotAhead | Table.java:183-189 | with fewer keys than slots, the probing loop of `put` meets a null key before it has stepped `capacity - 1` times |
| OpenAddressing.ContentsKeys | Table.java:23-33 | under the invariant, the mapping holds exactly the keys that have a slot, each with the element stored in that slot |
| OpenAddressing.ReplaceKeepsInv | Table.java:177-182 | overwriting the element of a present key keeps the invariant and changes the mapping at that key only |
| OpenAddressing.ContentsInsert | Table.java:190-191 | giving a new key a slot of its own adds exactly that key and element to the mapping |
| OpenAddressing.MoreUsedKeepsPath | Table.java:192 | setting more `hasBeenUsed` flags keeps every probe path used |
| OpenAddressing.InsertKeepsInv | Table.java:183-195 | storing a new key in the first null-key slot of its probe path keeps the invariant (including every key's probe path and `manyItems` equal to the number of keys) and adds the key to the mapping |
| OpenAddressing.RemoveKeepsInv | Table.java:224-230 | nulling a present key's slot while `hasBeenUsed` stays set keeps the invariant, so no other key's probe path is broken, and removes exactly that key from the mapping |
| OpenAddressing.Table.Hash | Table.java:129-135 | the home slot of a key is a valid index of the arrays |
| OpenAddressing.Table.constructor | Table.java:51-63 | a new table of the given positive capacity has all keys and elements null, no `hasBeenUsed` flag set, `manyItems == 0`, an empty mapping and the invariant |
| OpenAddressing.Table.Create | Table.java:51-63 | a capacity of 0 or less fails with IllegalArgument "Capacity is negative"; any other capacity gives a fresh empty table |
| OpenAddressing.Table.FindIndex | Table.java:86-102 | the probe from the home slot answers -1 exactly when the key is not stored, and otherwise the slot holding the key |
| OpenAddressing.Table.ContainsKey | Table.java:80-83 | the answer is true exactly when the key is in the mapping |
| OpenAddressing.Table.Get | Table.java:118-126 | a present key yields its element and an absent key yields null |
| OpenAddressing.Table.ProbeFree | Table.java:185-189 | the loop stops at the first null-key slot on the key's probe path; `collisions` is the number of occupied slots before it, and that number is below the capacity |
| OpenAddressing.Table.Put | Table.java:171-200 | a present key: only its element is overwritten, the old element is returned and `collisions == 0`. A new key with room: it goes to the first null-key slot on its probe path, `hasBeenUsed` is set there, `manyItems` grows by one, null is returned and `collisions` counts the occupied slots skipped. A new key in a full table: "Table is full." and nothing changes except `collisions == 0`. The invariant is kept, and in the first two cases the mapping is updated at the key |
| OpenAddressing.Table.Remove | Table.java:219-233 | a present key: its key and element become null, `hasBeenUsed` stays set, `manyItems` drops by one and the old element is returned. An absent key: null is returned and nothing changes. The invariant is kept and the key leaves the mapping |
| OpenAddressing.Table.GetCollisions | Table.java:243-245 | the counter is returned, and it is always between 0 and `capacity - 1` |
| OpenAddressing.PutThenGet | Table.java:171-195 | after a `put` that returns normally, `get` of the same key yields the element just put |
| OpenAddressing.RemoveKeepsOthers | Table.java:219-233 | removing one key never changes what `get` answers for another key |
| OpenAddressing.CollisionScenario | Table.java:183-195 | with capacity 5 and keys 2 and 7 (same home slot), the first put has 0 collisions and the second has 1, and 7 is still found after 2 is removed |
| Chaining.IndexOf | TableChainHash.java:131-134 | the cursor loop stops at the first node holding the key |
| Chaining.Find | TableChainHash.java:124-136 | walking a chain yields null exactly when the key is absent, and otherwise the element beside the key's first occurrence |
| Chaining.FindPrepend | TableChainHash.java:216-226 | a new head node shadows every older entry of its key and leaves other keys' lookups unchanged |
| Chaining.FindUnlink | TableChainHash.java:276-288 | unlinking the first node of a key leaves other keys' lookups unchanged and makes the key's next older entry, if any, visible again |
| Chaining.PrependKeepsInv | TableChainHash.java:216-226 | head insertion keeps the chains in lockstep and every key in its own bucket, and acts as a map update for lookups |
| Chaining.UnlinkKeepsInv | TableChainHash.java:277-288 | unlinking the first node of a key from both chains keeps the invariant, lowers `manyItems` by one, leaves other keys' lookups unchanged and uncovers the key's older entry |
| Chaining.EmptyBucketKeepsInv | TableChainHash.java:283-287 | nulling a bucket's heads keeps the invariant, lowers `manyItems` by one and loses every key of that bucket |
| Chaining.TableChainHash.Hash | TableChainHash.java:140-146 | the bucket of a key is a valid index of the arrays |
| Chaining.TableChainHash.constructor | TableChainHash.java:50-62 | a new table of the given positive capacity has every bucket empty and no `hasBeenUsed` flag set |
| Chaining.TableChainHash.Create | TableChainHash.java:50-62 | a capacity of 0 or less fails with IllegalArgument "Capacity is negative"; any other capacity gives a fresh table with every bucket empty |
| Chaining.TableChainHash.FindIndex | TableChainHash.java:85-101 | the inherited open-address search always answers -1 |
| Chaining.TableChainHash.ContainsKey | TableChainHash.java:79-82 | the answer is false for every key |
| Chaining.TableChainHash.Get | TableChainHash.java:117-137 | an empty bucket yields null; otherwise the element beside the first occurrence of the key in its bucket, which is the same as `Lookup(key)` |
| Chaining.TableChainHash.Put | TableChainHash.java:182-240 | null is always returned; `collisions` is the length of the key's bucket before the insertion; the pair is prepended to both chains of that bucket and every other bucket is unchanged; `manyItems` is unchanged; every lookup behaves as a map update at the key; the invariant is kept |
| Chaining.TableChainHash.Remove | TableChainHash.java:258-300 | a key absent from its bucket (including an empty bucket) yields null and nothing changes. A key found at the head yields its element and empties the whole bucket. A key found further on is unlinked from both chains at that position and its older entry becomes visible. A found key lowers `manyItems` by one. The invariant is kept |
| Chaining.TableChainHash.GetCollisions | TableChainHash.java:309-311 | the counter is returned, and it is never negative |
| Chaining.PutThenGet | TableChainHash.java:182-240 | `get` right after `put` yields the element just put, whether or not the key was already present |
| Chaining.CollisionScenario | TableChainHash.java:201-210 | with capacity 3, keys 0, 3 and 6 (one bucket) give 0, 1 and 2 collisions, and `containsKey` of a stored key is false |
| Chaining.ShadowedBucket | TableChainHash.java:216-226 | putting key 1 twice and then key 4 leaves bucket 1 as `[4, 1, 1]`, the newest entry first |
| Chaining.ShadowScenario | TableChainHash.java:128-135 | `get` of a key put twice yields the newer element |
| Chaining.ResurfaceScenario | TableChainHash.java:276-288 | unlinking the newer entry of a key that is not at the head brings back the older element |
| Chaining.HeadRemoveScenario | TableChainHash.java:283-285 | removing the head entry of a bucket also loses the other key stored there |

## Left out

- `HashTesting.java` is not part of this model. It is a driver that reads and parses a file, prints to the console and averages collision counts in floating point.
- `TableDoubleHash` is not part of this model. The driver uses it, but its source is not available.
- `Node` is not part of this model. Each chain is a sequence, so node identity and heap aliasing between nodes are not modelled.
- Null keys and elements are not modelled. This covers the null-dereference exceptions the doc comments announce and the null-argument message and early return in `TableChainHash.put` (`TableChainHash.java:193-195`).
- Chaining.TableChainHash.Get: requires the key to be in its bucket whenever that bucket is non-empty. The Java code dereferences null there instead of returning.
- `Math.abs(key.hashCode())` is not modelled bit for bit. The model takes the absolute hash code as a `nat`, so the negative result of `Math.abs(Integer.MIN_VALUE)` is left out.
- `manyItems` and `collisions` are unbounded integers. Java's 32-bit wrap-around is not modelled, such as `manyItems--` in `TableChainHash.remove` wrapping after 2^31 removals.
- The two nodes that `TableChainHash.put` allocates and never uses (`TableChainHash.java:187-188`) are left out. The unused `findIndex` call at line 190 is kept, and it has no effect.
- Key comparison is `==` on the key type. Java's `equals` is assumed to be an equivalence consistent with `hashCode`. In `TableChainHash.findIndex`, a key is compared with a chain node, which never matches; the model has no comparison there.
