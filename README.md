# Five hash-table engines, modelled and verified

The repository benchmarks five hash tables. All five have the same interface
(`tests/internal/hash_table/interface.go`): `Insert`, `Get`, `Delete`,
`SetLoadFactor`, the counters `Probes`/`Collisions` with their resets, `Size` and
`Capacity`. Keys are Go `int`s and values are opaque.

- **Chain** (`chain.go`): separate chaining. A key's bucket is
  `(uint64(key) * 0xbf58476d1ce4e5b9) & (cap - 1)`. Insert overwrites a key it
  finds or appends it. Delete moves the bucket's last entry into the gap.
- **DoubleHash** (`double_hash.go`): open addressing with tombstones. The step is
  `1 + (key & (cap - 1))`. Insert reuses the first tombstone it passes.
- **RobinHood** (`robin_hood.go`): linear probing. A resident closer to its home
  than the carried pair is swapped out. Delete leaves tombstones.
- **Hopscotch** (`hopscotch.go`): a 32-bit hop word per home slot. Insert
  searches up to 256 slots for a free one and resizes when the slot is 64 or more
  slots away.
- **Cuckoo** (`cuckoo.go`): two arrays with salted multiplicative hashes.
  Insert kicks residents between the arrays for up to 500 kicks. A failed
  insertion is followed by a rehash under new salts (at most 5 in a row, placed
  with splitmix) or by quadrupling both arrays.

Each engine is a Dafny module with a class whose members carry the Go names.
Each class has a ghost `contents` map: the map that the calls made so far
describe. Loops become methods with invariants. Each method is proved against a
pure function that runs the same walk on a `seq` snapshot of the table (for
example `RobinHood.Settle`, `DoubleHash.Search`, `Hopscotch.Scan`,
`Cuckoo.KickRun`). The properties are then proved as lemmas about those
functions.

For Chain and DoubleHash the table always represents `contents`. The other three
engines have inputs on which the slots stop holding `contents`. Their classes
keep a ghost flag `exact`: while it is true, `Get` answers `contents`, and each
operation says when it keeps the flag. Lemmas exhibit each way the flag is lost
(see the rows marked *as written* below).

Common pieces:
- `Common`: `nextPowerOfTwo`, the multiplicative hash with Go's `uint64`
  wrap-around, bitwise AND on naturals, and the load factor as a rational
  `lfNum / lfDen`.
- `Slots`: occupancy counts and key sets shared by the open-addressing engines.

## Model

| member | source | states |
|---|---|---|
| Common.NextPowerOfTwo | tests/internal/hash_table/chain/chain.go:149-157 | For `n` up to 2^62, the largest power of two an `int` holds, the result is a power of two of at least 8 and at least `n`, and at most 2^62. It is 8 for `n < 8`, `n` itself for a power of two `n >= 8`, and below `2n` otherwise |
| Common.NextPowerOfTwoLeast | tests/internal/hash_table/chain/chain.go:149-157 | `nextPowerOfTwo(n)` is the least power of two that is at least both `n` and 8 |
| Common.ShouldResize | tests/internal/hash_table/chain/chain.go:141-143 | With a load factor of at most 1, a table whose size has reached its capacity always asks to resize |
| Common.MaxPow2IntIsPow2 | tests/internal/hash_table/chain/chain.go:149-157 | 2^62, the largest power of two an `int` holds, is a power of two |
| Common.PowerOfTwoTest | tests/internal/hash_table/chain/chain.go:153 | For `n >= 1`, Go's test `n & (n - 1) == 0` holds exactly when `n` is a power of two |
| Common.BitLen | tests/internal/hash_table/chain/chain.go:156 | `bits.Len(n)` is the bit count `r` with `2^(r-1) <= n < 2^r` |
| Common.MaskIsMod | tests/internal/hash_table/chain/chain.go:146 | For a power-of-two `cap`, masking with `cap - 1` is the remainder modulo `cap` |
| Common.AndAtMost | tests/internal/hash_table/chain/chain.go:146 | A masked word never exceeds the mask |
| Common.U64 | tests/internal/hash_table/chain/chain.go:146 | `uint64(key)` is the two's-complement word, below 2^64 |
| Common.HashWord | tests/internal/hash_table/chain/chain.go:146 | `uint64(key) * hashConst` wraps below 2^64 |
| Common.MulHash | tests/internal/hash_table/chain/chain.go:145-147 | The masked hash is a slot index below the capacity |
| Common.DoubleIsPow2 | tests/internal/hash_table/chain/chain.go:126 | Doubling the capacity keeps it a power of two |
| Common.NoResizeLeavesRoom | tests/internal/hash_table/robin_hood/robin_hood.go:202-204 | With a load factor of at most 1, a table that `shouldResize` lets through has `size < cap` |
| Common.SubMapTrans | tests/internal/hash_table/double_hash/double_hash.go:172-190 | Losing pairs twice in a row still leaves a sub-map of the original |
| Common.SubMapPut | tests/internal/hash_table/double_hash/double_hash.go:33-49 | Inserting the same pair into a map and into a sub-map of it keeps the sub-map relation |
| Common.SubMapEqual | tests/internal/hash_table/double_hash/double_hash.go:180-189 | A sub-map that has every key of the larger map is that map |
| Slots.Count | tests/internal/hash_table/robin_hood/robin_hood.go:61 | The number of occupied slots below `b` is at most `b` |
| Slots.CountPut | tests/internal/hash_table/robin_hood/robin_hood.go:59-62 | Writing one slot changes the occupied count by one exactly when the slot's occupancy changes |
| Slots.CountMono | tests/internal/hash_table/robin_hood/robin_hood.go:61 | Counting over a longer prefix never counts fewer slots |
| Slots.CountFree | tests/internal/hash_table/robin_hood/robin_hood.go:54-62 | Fewer occupied slots than slots leaves a slot that is not occupied |
| Slots.CountNone | tests/internal/hash_table/robin_hood/robin_hood.go:38 | A freshly allocated table has no occupied slot |
| Slots.KeysNext | tests/internal/hash_table/robin_hood/robin_hood.go:189-193 | The key set grows slot by slot with the key of each occupied slot |
| Slots.KeysPut | tests/internal/hash_table/hopscotch/hopscotch.go:122 | Writing a pair adds its key and loses at most the key the slot held |
| Slots.KeysClear | tests/internal/hash_table/hopscotch/hopscotch.go:162 | Emptying a slot loses at most the key it held and keeps every other key |
| Slots.ViewPrefix | tests/internal/hash_table/robin_hood/robin_hood.go:189-193 | The pairs of any prefix of a table that agrees with `m` form a sub-map of `m` whose keys are the prefix's keys |
| Slots.StoresView | tests/internal/hash_table/robin_hood/robin_hood.go:189-193 | A table holding exactly `m` rebuilds `m` when its occupied slots are reinserted in order |
| Slots.CountKeys | tests/internal/hash_table/robin_hood/robin_hood.go:172-174 | With no key held twice, the occupied count equals the number of keys |
| Slots.SizeIsCount | tests/internal/hash_table/robin_hood/robin_hood.go:172-174 | On a table with no key twice that holds `m`, the occupied count, and so `size`, is `\|m\|` |
| Slots.ExactSize | tests/internal/hash_table/hopscotch/hopscotch.go:193-195 | While a table is exact, `Size()` is the size of its map |
| Slots.PutStores | tests/internal/hash_table/hopscotch/hopscotch.go:122 | Writing a new key into a free slot keeps keys distinct and adds the pair to the map |
| Slots.RewriteStores | tests/internal/hash_table/hopscotch/hopscotch.go:58-59 | Rewriting the value of the one slot holding a key updates that key in the map and nothing else |
| Slots.ClearStores | tests/internal/hash_table/hopscotch/hopscotch.go:161-164 | Emptying the one slot holding a key removes exactly that key from the map |
| Slots.UniqueLone | tests/internal/hash_table/hopscotch/hopscotch.go:211-215 | In a table with no key twice, every occupied slot holds the only pair for its key |
| Slots.RebuildKeepsAll | tests/internal/hash_table/hopscotch/hopscotch.go:201-218 | A rebuild that keeps every pair held alone keeps every pair of a table with no key twice |
| Slots.WriteKeeps | tests/internal/hash_table/hopscotch/hopscotch.go:58-59 | Writing the pair into a free slot or over its own key draws every slot from the old pairs plus the new one and keeps every pair of another key held alone |
| Slots.RebuildThenInsert | tests/internal/hash_table/hopscotch/hopscotch.go:86-90 | A rebuild followed by an insertion keeps the pairs an insertion alone would keep |
| Slots.ReinsertStep | tests/internal/hash_table/hopscotch/hopscotch.go:211-215 | Reinserting slot `b` extends "drawn from the first `b` slots, lone pairs held" to the first `b + 1` slots |
| Slots.DrawnFromLonger | tests/internal/hash_table/hopscotch/hopscotch.go:211-215 | Skipping an unused slot keeps the rebuilt slots drawn from the longer prefix |
| Chain.IndexOf | tests/internal/hash_table/chain/chain.go:45-52 | The scan finds the first entry with the key, and it returns -1 exactly when no entry has the key |
| Chain.Put | tests/internal/hash_table/chain/chain.go:42-62 | The bucket grows by one entry exactly for a new key, keeps every entry of another key in place, and holds the new pair |
| Chain.Remove | tests/internal/hash_table/chain/chain.go:78-93 | The bucket shrinks by one entry exactly when the key is found, and holds only old entries |
| Chain.Lookup | tests/internal/hash_table/chain/chain.go:64-76 | On buckets representing `m`, a key is in `m` exactly when the scan of its bucket finds it, and the entry found holds `m[key]` |
| Chain.PutChain | tests/internal/hash_table/chain/chain.go:42-62 | After insertNoResize the bucket still has distinct keys and holds the new pair. Every other entry is an old one with another key, and every other key is still found |
| Chain.RemoveChain | tests/internal/hash_table/chain/chain.go:78-93 | After Delete the bucket has distinct keys and no entry with the key. The last entry fills the gap, and every other key is still found |
| Chain.ReplaceBucket | tests/internal/hash_table/chain/chain.go:58-59 | Replacing one bucket by one that holds exactly the pairs of `m'` hashing there turns a representation of `m` into one of `m'`, when `m'` agrees with `m` on every other bucket |
| Chain.PutEntries | tests/internal/hash_table/chain/chain.go:42-62 | The bucket insertNoResize builds holds only pairs of `m[key := value]`, each hashing to that bucket |
| Chain.PutKeys | tests/internal/hash_table/chain/chain.go:42-62 | The bucket insertNoResize builds finds every key of `m[key := value]` that hashes to it |
| Chain.PutRepresents | tests/internal/hash_table/chain/chain.go:42-62 | insertNoResize turns a representation of `m` into one of `m[key := value]`. The map grows by one exactly when the key was absent |
| Chain.RemoveEntries | tests/internal/hash_table/chain/chain.go:78-93 | The bucket Delete leaves holds only pairs of `m - {key}` hashing to it |
| Chain.RemoveKeys | tests/internal/hash_table/chain/chain.go:78-93 | The bucket Delete leaves still finds every other key hashing to it |
| Chain.RemoveRepresents | tests/internal/hash_table/chain/chain.go:78-93 | Delete turns a representation of `m` into one of `m - {key}`. The map shrinks by one exactly when the key was present |
| Chain.InsertionsAgree | tests/internal/hash_table/chain/chain.go:133-135 | Reinserting entries that agree with `whole` keeps a sub-map of `whole` and adds exactly the entries' keys |
| Chain.MigratedIs | tests/internal/hash_table/chain/chain.go:132-136 | After the first `b` old buckets, the rebuilt map is the part of the old map whose old bucket is below `b` |
| Chain.MigratedAll | tests/internal/hash_table/chain/chain.go:123-139 | Reinserting every old bucket rebuilds the old map exactly |
| Chain.ChainTable.constructor | tests/internal/hash_table/chain/chain.go:23-32 | `New`: capacity `nextPowerOfTwo(initialCapacity)`, empty map, load factor 1, zero counters |
| Chain.ChainTable.Size | tests/internal/hash_table/chain/chain.go:115-117 | `Size()` is the size of the map |
| Chain.ChainTable.Capacity | tests/internal/hash_table/chain/chain.go:119-121 | `Capacity()` is a power of two of at least 8, the number of buckets |
| Chain.ChainTable.ResetProbes | tests/internal/hash_table/chain/chain.go:103-105 | Sets the probe counter to zero |
| Chain.ChainTable.ResetCollisions | tests/internal/hash_table/chain/chain.go:111-113 | Sets the collision counter to zero |
| Chain.ChainTable.SetLoadFactor | tests/internal/hash_table/chain/chain.go:95-97 | Sets the load factor and leaves the table as it is |
| Chain.ChainTable.Scan | tests/internal/hash_table/chain/chain.go:45-52 | The scan loop returns `IndexOf` and counts one probe per entry examined |
| Chain.ChainTable.InsertNoResize | tests/internal/hash_table/chain/chain.go:42-62 | The map becomes `contents[key := value]` and the bucket becomes `Put`. Size grows exactly for a new key. A collision is counted when a new key meets a non-empty bucket |
| Chain.ChainTable.Get | tests/internal/hash_table/chain/chain.go:64-76 | Answers the map's value for the key, or nothing, with the probes of the scan |
| Chain.ChainTable.Delete | tests/internal/hash_table/chain/chain.go:78-93 | The map loses the key, the bucket becomes `Remove`, and size drops exactly when the key was present |
| Chain.ChainTable.Reinsert | tests/internal/hash_table/chain/chain.go:133-135 | The inner loop of resize reinserts one old bucket's entries in order |
| Chain.ChainTable.ReinsertAll | tests/internal/hash_table/chain/chain.go:132-136 | The outer loop rebuilds `Migrated` of all old buckets |
| Chain.ChainTable.Resize | tests/internal/hash_table/chain/chain.go:123-139 | Capacity doubles. Map and size are unchanged, and the collision count is restored |
| Chain.ChainTable.Insert | tests/internal/hash_table/chain/chain.go:34-40 | The map becomes `contents[key := value]`. Capacity doubles exactly when `shouldResize` held, and the load factor is unchanged |
| Chain.EvictedStep | tests/internal/hash_table/hash_table_test.go:39-41 | Deleting an even key and passing the odd key after it removes exactly that even key |
| Chain.LabelsHas | tests/internal/hash_table/hash_table_test.go:28-30 | After inserting `0..n-1`, the map holds exactly those keys, each with its label `val-i` |
| Chain.EvictedHas | tests/internal/hash_table/hash_table_test.go:39-41 | After deleting the even keys below `i`, the map holds the keys that are odd or at least `i`, with their labels |
| Chain.ReadsAt | tests/internal/hash_table/hash_table_test.go:31-37 | The read right after inserting key `j` is `val-j` |
| Chain.Label | tests/internal/hash_table/hash_table_test.go:29 | `fmt.Sprintf("val-%d", i)` is `val-` followed by decimal digits |
| Chain.LookupsAt | tests/internal/hash_table/hash_table_test.go:42-44 | The `j`-th reread is the map's answer for `j` |
| Chain.Fill | tests/internal/hash_table/hash_table_test.go:26-38 | A table of capacity 8 after inserting `0..n-1` holds their labels, and each read right after its insertion gives the label |
| Chain.FillNext | tests/internal/hash_table/hash_table_test.go:28-37 | One pass of the insertion loop extends the inserted labels and the reads by key `i` |
| Chain.DeleteEvens | tests/internal/hash_table/hash_table_test.go:39-41 | Deleting the even keys leaves the map without them |
| Chain.ReadBack | tests/internal/hash_table/hash_table_test.go:42-54 | Rereading `0..n-1` gives the map's answers |
| Chain.BasicScenario | tests/internal/hash_table/hash_table_test.go:23-57 | For every `n`, each key reads back its label right after insertion. After the even keys are deleted, odd keys read back their labels and even keys are not found |
| Chain.UpdateScenario | tests/internal/hash_table/hash_table_test.go:98-110 | Inserting 42 twice leaves `Get(42) == "second"` and size 1 |
| DoubleHash.Hash2 | tests/internal/hash_table/double_hash/double_hash.go:200-202 | The step is never zero and at most `cap` |
| DoubleHash.OffsetIs | tests/internal/hash_table/double_hash/double_hash.go:59 | Probe `i` sits `h1 + i * h2` slots on |
| DoubleHash.Probe | tests/internal/hash_table/double_hash/double_hash.go:59 | Every probe lands on a slot of the table |
| DoubleHash.Search | tests/internal/hash_table/double_hash/double_hash.go:56-94 | The walk's stopping step is at least where it started and at most `cap`. Below `cap`, the slot there stops the walk: empty, or holding the key |
| DoubleHash.FirstTombIs | tests/internal/hash_table/double_hash/double_hash.go:82-88 | `firstTombstone` is the first tombstone the walk passed, and no earlier probe saw one |
| DoubleHash.Home | tests/internal/hash_table/double_hash/double_hash.go:56-94 | The slot where the walk stops, or -1 when it runs out |
| DoubleHash.Target | tests/internal/hash_table/double_hash/double_hash.go:66-93 | The slot insertNoResize writes is a slot of the table |
| DoubleHash.Lookup | tests/internal/hash_table/double_hash/double_hash.go:99-119 | On a table representing `m`, the walk stops at the key exactly when the key is in `m`, at a slot holding `m[key]` |
| DoubleHash.SearchSame | tests/internal/hash_table/double_hash/double_hash.go:56-94 | Changing a slot that plays the same part in a walk (stop or pass) leaves the walk where it was |
| DoubleHash.SearchNew | tests/internal/hash_table/double_hash/double_hash.go:66-88 | Writing the key into the first tombstone of its walk, or into the empty slot that ends it, makes the walk stop there |
| DoubleHash.InsertKeepsHome | tests/internal/hash_table/double_hash/double_hash.go:66-93 | insertNoResize's write leaves the walk of every other key where it was |
| DoubleHash.InsertHome | tests/internal/hash_table/double_hash/double_hash.go:66-93 | After insertNoResize's write, the key's walk stops at the slot written |
| DoubleHash.InsertRepresents | tests/internal/hash_table/double_hash/double_hash.go:51-97 | A successful insertNoResize turns a representation of `m` into one of `m[key := value]`. The map grows exactly when the stopping slot was not occupied |
| DoubleHash.DeleteRepresents | tests/internal/hash_table/double_hash/double_hash.go:121-142 | Burying the key's slot turns a representation of `m` into one of `m - {key}` |
| DoubleHash.OccupiedMapIs | tests/internal/hash_table/double_hash/double_hash.go:180-187 | The occupied slots below `b` hold exactly the pairs of the map whose walk stops below `b` |
| DoubleHash.OccupiedMapAll | tests/internal/hash_table/double_hash/double_hash.go:180-187 | Reinserting all occupied slots rebuilds exactly the map |
| DoubleHash.StuckProbe | tests/internal/hash_table/double_hash/double_hash.go:200-202 | *as written*: for a key whose low bits are all ones, `hash2` is `cap`, so every probe lands on the key's first slot |
| DoubleHash.StuckWalkFails | tests/internal/hash_table/double_hash/double_hash.go:56-96 | *as written*: such a key's walk fails once its one slot holds another key, however empty the rest of the table |
| DoubleHash.DoubleHashTable.constructor | tests/internal/hash_table/double_hash/double_hash.go:22-31 | `New`: capacity `nextPowerOfTwo`, all slots empty, load factor 0.7 |
| DoubleHash.DoubleHashTable.Size | tests/internal/hash_table/double_hash/double_hash.go:164-166 | `Size()` is the size of the map |
| DoubleHash.DoubleHashTable.Capacity | tests/internal/hash_table/double_hash/double_hash.go:168-170 | `Capacity()` is a power of two of at least 8, the table's length |
| DoubleHash.DoubleHashTable.ResetProbes | tests/internal/hash_table/double_hash/double_hash.go:152-154 | Sets the probe counter to zero |
| DoubleHash.DoubleHashTable.ResetCollisions | tests/internal/hash_table/double_hash/double_hash.go:160-162 | Sets the collision counter to zero |
| DoubleHash.DoubleHashTable.SetLoadFactor | tests/internal/hash_table/double_hash/double_hash.go:144-146 | Sets the load factor |
| DoubleHash.DoubleHashTable.Walk | tests/internal/hash_table/double_hash/double_hash.go:56-94 | The probe loop stops at `Search` and reports the first tombstone passed. It counts one probe per step and at most one collision, on the first probe |
| DoubleHash.DoubleHashTable.Place | tests/internal/hash_table/double_hash/double_hash.go:66-93 | The write of insertNoResize puts the pair into `Target`, and size grows for a new key |
| DoubleHash.DoubleHashTable.InsertNoResize | tests/internal/hash_table/double_hash/double_hash.go:51-97 | Succeeds exactly when the walk stops within `cap` probes, and then the map becomes `contents[key := value]`. On failure no slot changes. Size, probes and collisions are stated exactly |
| DoubleHash.DoubleHashTable.Get | tests/internal/hash_table/double_hash/double_hash.go:99-119 | Answers the map's value for the key, or nothing, with the walk's probes |
| DoubleHash.DoubleHashTable.Bury | tests/internal/hash_table/double_hash/double_hash.go:135-139 | The found slot becomes a tombstone, and the map and size lose the key |
| DoubleHash.DoubleHashTable.Delete | tests/internal/hash_table/double_hash/double_hash.go:121-142 | The map loses the key. A found slot becomes a tombstone and size drops; a missing key changes nothing but probes |
| DoubleHash.DoubleHashTable.ReinsertAll | tests/internal/hash_table/double_hash/double_hash.go:180-187 | The rebuilt map is the pairs of some prefix of the old slots, and all of them when every reinsertion succeeds |
| DoubleHash.DoubleHashTable.Resize | tests/internal/hash_table/double_hash/double_hash.go:172-190 | Capacity doubles. The map becomes a sub-map of the old one, and stays the same on success |
| DoubleHash.DoubleHashTable.Insert | tests/internal/hash_table/double_hash/double_hash.go:33-49 | The map becomes a sub-map of `contents[key := value]` or of `contents`. It is exactly `contents[key := value]`, at the same capacity, when no resize is due and the walk has room. The capacity is multiplied by 1, 2 or 4 (one doubling per `resize` call), at least doubling when `shouldResize` held, and the load factor is unchanged |
| RobinHood.Step | tests/internal/hash_table/robin_hood/robin_hood.go:84 | The next slot is a slot of the table |
| RobinHood.StepNext | tests/internal/hash_table/robin_hood/robin_hood.go:84 | The next slot is one further, or 0 after the last |
| RobinHood.Displacement | tests/internal/hash_table/robin_hood/robin_hood.go:76 | The masked distance from home is below `cap` |
| RobinHood.DisplacementIs | tests/internal/hash_table/robin_hood/robin_hood.go:76 | The masked `(idx - home)` is `idx - home`, or `idx + cap - home` when the walk wrapped |
| RobinHood.AheadStep | tests/internal/hash_table/robin_hood/robin_hood.go:83-84 | One step from `j` slots past `h` is `j + 1` slots past it |
| RobinHood.AheadDisplacement | tests/internal/hash_table/robin_hood/robin_hood.go:76 | The slot `j` steps past `h` lies at displacement `j` from `h` |
| RobinHood.DisplacementAhead | tests/internal/hash_table/robin_hood/robin_hood.go:76 | Walking a slot's displacement from `h` lands on that slot |
| RobinHood.GapStep | tests/internal/hash_table/robin_hood/robin_hood.go:83-84 | Passing a slot brings the slot that stops the walk one step closer, so the loop terminates |
| RobinHood.GapUpdate | tests/internal/hash_table/robin_hood/robin_hood.go:78-79 | A swap, which keeps the slot occupied, keeps every distance to a stopping slot |
| RobinHood.GapFree | tests/internal/hash_table/robin_hood/robin_hood.go:54-86 | One slot that stops the walk bounds the walk from any start |
| RobinHood.LiveGap | tests/internal/hash_table/robin_hood/robin_hood.go:125-149 | On a table with a slot that is not a tombstone, Delete's walk reaches a stopping slot |
| RobinHood.Settle | tests/internal/hash_table/robin_hood/robin_hood.go:54-86 | The Insert loop keeps the table's length and makes at least one probe |
| RobinHood.SettleProbes | tests/internal/hash_table/robin_hood/robin_hood.go:54-86 | Insert makes at most one probe more than the occupied slots ahead of home, and so at most `cap` |
| RobinHood.SettleKeys | tests/internal/hash_table/robin_hood/robin_hood.go:54-86 | Swaps lose no key: the table's keys afterwards are the old keys plus the inserted one |
| RobinHood.SettleCount | tests/internal/hash_table/robin_hood/robin_hood.go:59-62 | The occupied count grows by one exactly when the walk ends in a slot that was not occupied |
| RobinHood.Seek | tests/internal/hash_table/robin_hood/robin_hood.go:89-119 | A slot that Get or Delete reports holds the key. Each walk makes at least one probe |
| RobinHood.SeekGap | tests/internal/hash_table/robin_hood/robin_hood.go:121-150 | Delete's unbounded loop terminates on a table that is not all tombstones: the tombstones ahead decrease |
| RobinHood.SeekBound | tests/internal/hash_table/robin_hood/robin_hood.go:115-117 | Get makes at most `cap + 1` probes |
| RobinHood.PathPut | tests/internal/hash_table/robin_hood/robin_hood.go:78-79 | A write that leaves a slot at least as passable keeps every key's path from its home passable |
| RobinHood.PathExtend | tests/internal/hash_table/robin_hood/robin_hood.go:83-84 | A passable path extends by a passable slot |
| RobinHood.OrderedPut | tests/internal/hash_table/robin_hood/robin_hood.go:77-81 | A write keeps the Robin Hood order when the slot stays passable, the new key sits at the end of a passable path from its home, and no other slot holds that key |
| RobinHood.CarriedAhead | tests/internal/hash_table/robin_hood/robin_hood.go:64-68 | A slot holding the carried key is the current slot, or the current resident is at least as far from home |
| RobinHood.FillFree | tests/internal/hash_table/robin_hood/robin_hood.go:59-62 | Ending in an empty slot means the key was new, and writing it there keeps order and representation of `m[key := value]` |
| RobinHood.Refill | tests/internal/hash_table/robin_hood/robin_hood.go:65-68 | Reaching the key means it was in the map. Replacing its value keeps the order and represents `m[key := value]` |
| RobinHood.RoomAhead | tests/internal/hash_table/robin_hood/robin_hood.go:83 | Passing an occupied slot keeps the distance below `cap` |
| RobinHood.PassOn | tests/internal/hash_table/robin_hood/robin_hood.go:77-84 | Passing a resident at least as far from home carries the same pair on, one step further |
| RobinHood.SwapOut | tests/internal/hash_table/robin_hood/robin_hood.go:77-81 | Swapping with a closer resident carries the resident on at its own distance, and the map is unchanged |
| RobinHood.SettleOrdered | tests/internal/hash_table/robin_hood/robin_hood.go:54-86 | On an ordered table without tombstones that represents `m`, Insert leaves such a table representing `m[key := value]`. It fills a slot exactly when the key was new |
| RobinHood.SeekFinds | tests/internal/hash_table/robin_hood/robin_hood.go:93-118 | On an ordered table the walk for a resident's key, started on its path, ends at that resident |
| RobinHood.Lookup | tests/internal/hash_table/robin_hood/robin_hood.go:89-119 | On an ordered table representing `m`, Get and Delete find the key exactly when it is in `m`, at a slot holding `m[key]` |
| RobinHood.DeleteOrdered | tests/internal/hash_table/robin_hood/robin_hood.go:121-150 | Delete keeps the order and represents `m - {key}` |
| RobinHood.TombstoneDuplicates | tests/internal/hash_table/robin_hood/robin_hood.go:59-62 | *as written*: with a tombstone at the key's home and the key one slot on, Insert writes the tombstone and the key is held twice |
| RobinHood.StaleAfterDelete | tests/internal/hash_table/robin_hood/robin_hood.go:133-137 | *as written*: a following Delete buries only the new copy, and Get then finds the old value |
| RobinHood.LostBehindTombstone | tests/internal/hash_table/robin_hood/robin_hood.go:105-109 | *as written*: a key written into a tombstone that another key's walk used to pass stops that walk early, and Get misses the other key |
| RobinHood.SettleSwap | tests/internal/hash_table/robin_hood/robin_hood.go:77-84 | One swap step: the walk from the next slot, carrying the resident, ends as the whole walk does, one probe fewer |
| RobinHood.SettleOn | tests/internal/hash_table/robin_hood/robin_hood.go:83-84 | One pass step: the walk from the next slot ends as the whole walk does, one probe fewer |
| RobinHood.RoomGap | tests/internal/hash_table/robin_hood/robin_hood.go:54-86 | A table with a free slot lets every Insert walk end |
| RobinHood.Blank | tests/internal/hash_table/robin_hood/robin_hood.go:38 | An empty table is ordered, has no tombstones and represents the empty map |
| RobinHood.StartCarrying | tests/internal/hash_table/robin_hood/robin_hood.go:50-52 | The Insert walk starts at home carrying the key at distance 0 |
| RobinHood.RobinHoodTable.constructor | tests/internal/hash_table/robin_hood/robin_hood.go:34-43 | `New`: capacity `nextPowerOfTwo`, no tombstones, empty map, load factor 0.7 |
| RobinHood.RobinHoodTable.Size | tests/internal/hash_table/robin_hood/robin_hood.go:172-174 | `Size()` counts the occupied slots, and while exact it is the size of the map |
| RobinHood.RobinHoodTable.Capacity | tests/internal/hash_table/robin_hood/robin_hood.go:176-178 | `Capacity()` is a power of two of at least 8 |
| RobinHood.RobinHoodTable.ResetProbes | tests/internal/hash_table/robin_hood/robin_hood.go:160-162 | Sets the probe counter to zero |
| RobinHood.RobinHoodTable.ResetCollisions | tests/internal/hash_table/robin_hood/robin_hood.go:168-170 | Sets the collision counter to zero |
| RobinHood.RobinHoodTable.SetLoadFactor | tests/internal/hash_table/robin_hood/robin_hood.go:152-154 | Sets the load factor |
| RobinHood.RobinHoodTable.Carry | tests/internal/hash_table/robin_hood/robin_hood.go:75-84 | The swap-and-step tail of one pass leaves a walk that ends as the whole walk does |
| RobinHood.RobinHoodTable.Place | tests/internal/hash_table/robin_hood/robin_hood.go:50-86 | The loop leaves the table `Settle` computes. Size grows when a slot fills, probes are `Settle`'s, and one collision is counted when an occupied slot is passed |
| RobinHood.RobinHoodTable.Get | tests/internal/hash_table/robin_hood/robin_hood.go:89-119 | Answers the value at the slot `Seek` finds, and the map's answer while exact |
| RobinHood.RobinHoodTable.Bury | tests/internal/hash_table/robin_hood/robin_hood.go:133-137 | The found slot becomes a tombstone, and the map and size lose the key |
| RobinHood.RobinHoodTable.Delete | tests/internal/hash_table/robin_hood/robin_hood.go:121-150 | The map loses the key. The slot `Seek` finds becomes a tombstone and size drops by one |
| RobinHood.RobinHoodTable.ReinsertAll | tests/internal/hash_table/robin_hood/robin_hood.go:189-193 | The rebuilt table is exact, has no tombstones, and holds the old slots' pairs, a later slot winning |
| RobinHood.RobinHoodTable.Resize | tests/internal/hash_table/robin_hood/robin_hood.go:180-196 | At least doubles the capacity, heals the table (ordered, no tombstones, holding the old pairs) and restores the collision count |
| RobinHood.RobinHoodTable.Insert | tests/internal/hash_table/robin_hood/robin_hood.go:45-87 | The map becomes `contents[key := value]`. The table stays exact only after a resize or on a table without tombstones. Without a resize the new state is `Settle`'s |
| Common.Pow2Sum | tests/internal/hash_table/hopscotch/hopscotch.go:97 | `2^(a+b) = 2^a * 2^b`, for the shifts of the hop words and the constant 2^62 |
| Hopscotch.Widths | tests/internal/hash_table/hopscotch/hopscotch.go:21 | The word widths 2^32 and 2^64 |
| Hopscotch.Shl1 | tests/internal/hash_table/hopscotch/hopscotch.go:123 | `uint32(1 << d)` is a power of two exactly when `d < 32`, and 0 otherwise |
| Hopscotch.TrailingZeros | tests/internal/hash_table/hopscotch/hopscotch.go:54 | `bits.TrailingZeros32` gives the lowest set bit |
| Hopscotch.BitAnd | tests/internal/hash_table/hopscotch/hopscotch.go:97 | A bit of `a & b` is set exactly when it is set in both |
| Hopscotch.BitOr | tests/internal/hash_table/hopscotch/hopscotch.go:123 | A bit of `a \| b` is set exactly when it is set in either |
| Hopscotch.BitAndNot | tests/internal/hash_table/hopscotch/hopscotch.go:163 | A bit of `a &^ b` is set exactly when it is set in `a` and not in `b` |
| Hopscotch.BitShl1 | tests/internal/hash_table/hopscotch/hopscotch.go:123 | `uint32(1 << j)` has bit `j` alone, and no bit at all when `j >= 32` |
| Hopscotch.AndShl1 | tests/internal/hash_table/hopscotch/hopscotch.go:97 | `w & (1 << j) != 0` reads bit `j`, and never a bit at or above 32 |
| Hopscotch.DecBits | tests/internal/hash_table/hopscotch/hopscotch.go:64 | Subtracting one flips the trailing zeros and the lowest set bit |
| Hopscotch.ClearLowest | tests/internal/hash_table/hopscotch/hopscotch.go:64 | `hop &= hop - 1` clears exactly the lowest set bit and makes the word smaller |
| Hopscotch.Fits | tests/internal/hash_table/hopscotch/hopscotch.go:21 | A word without bits at or above `k` is below `2^k` |
| Hopscotch.Wrap | tests/internal/hash_table/hopscotch/hopscotch.go:96 | A masked signed offset is a slot of the table |
| Hopscotch.Cell | tests/internal/hash_table/hopscotch/hopscotch.go:55 | `(base + d) & (cap - 1)` is a slot of the table |
| Hopscotch.WrapIsMod | tests/internal/hash_table/hopscotch/hopscotch.go:96 | For a power-of-two capacity the mask is the remainder, also for a negative `free - hopDist` |
| Hopscotch.WrapBack | tests/internal/hash_table/hopscotch/hopscotch.go:103 | Going back from a slot to a home and forward by the offset lands on the slot |
| Hopscotch.WrapOffset | tests/internal/hash_table/hopscotch/hopscotch.go:103 | The offset of slot `h + d` from `h` is `d` |
| Hopscotch.WrapInjective | tests/internal/hash_table/hopscotch/hopscotch.go:55 | Distinct offsets below the capacity name distinct slots |
| Hopscotch.WordsFit | tests/internal/hash_table/hopscotch/hopscotch.go:21 | The hop words are `uint32` values |
| Hopscotch.SeenAt | tests/internal/hash_table/hopscotch/hopscotch.go:131-142 | On a table where every slot is visible, a resident's slot is flagged in its home's word at its offset |
| Hopscotch.Scan | tests/internal/hash_table/hopscotch/hopscotch.go:131-144 | The hop-word walk reports an offset whose bit is set and whose slot holds the key. When it reports nothing, no flagged slot holds the key |
| Hopscotch.FreeFrom | tests/internal/hash_table/hopscotch/hopscotch.go:72-83 | The free-slot search returns an offset below 256 whose slot is free, or 256 |
| Hopscotch.FreeFromTaken | tests/internal/hash_table/hopscotch/hopscotch.go:75-83 | Every slot the search passes is in use |
| Hopscotch.FreeWithin | tests/internal/hash_table/hopscotch/hopscotch.go:72-83 | A free slot found lies less than `cap` slots from where the search started |
| Hopscotch.NoCandidate | tests/internal/hash_table/hopscotch/hopscotch.go:93-120 | *as written*: while the hop bits are sound, the move step never finds a bit to move, so a free slot 64 or more away always ends in a resize |
| Hopscotch.Lookup | tests/internal/hash_table/hopscotch/hopscotch.go:127-145 | On an exact table the walk finds the key exactly when the map holds it, at a slot holding the map's value |
| Hopscotch.Absent | tests/internal/hash_table/hopscotch/hopscotch.go:51-65 | A walk that finds nothing on a fully visible table means no slot holds the key |
| Hopscotch.PlanOf | tests/internal/hash_table/hopscotch/hopscotch.go:43-125 | The plan of Insert on a table: replace the value only at a flagged slot holding the key; otherwise no flagged slot holds the key, and a placement is at a free slot fewer than 64 slots from home |
| Hopscotch.ScanAgree | tests/internal/hash_table/hopscotch/hopscotch.go:131-142 | The walk reads only the slots its word flags |
| Hopscotch.RefreshSound | tests/internal/hash_table/hopscotch/hopscotch.go:58-59 | Overwriting a value keeps the hop bits sound, the count and the keys |
| Hopscotch.RefreshExact | tests/internal/hash_table/hopscotch/hopscotch.go:58-59 | Overwriting a value keeps an exact table exact for `m[key := value]` |
| Hopscotch.OrShl1 | tests/internal/hash_table/hopscotch/hopscotch.go:123 | Or-ing `1 << d` keeps a `uint32` word and adds bit `d` exactly when `d < 32` |
| Hopscotch.PutSound | tests/internal/hash_table/hopscotch/hopscotch.go:122-124 | A placement keeps the hop bits sound and the words `uint32`. It adds one occupied slot and the key |
| Hopscotch.SeenBy | tests/internal/hash_table/hopscotch/hopscotch.go:131-142 | A resident whose home word has its offset set is seen by the walk |
| Hopscotch.PutSeenNew | tests/internal/hash_table/hopscotch/hopscotch.go:122-123 | A placement fewer than 32 slots from home is flagged in its home's word |
| Hopscotch.PutSeenOld | tests/internal/hash_table/hopscotch/hopscotch.go:123 | Or-ing a bit into a word keeps every other slot flagged |
| Hopscotch.PutVisible | tests/internal/hash_table/hopscotch/hopscotch.go:122-124 | A placement fewer than 32 slots from home keeps every slot visible, the new one included |
| Hopscotch.HiddenPlacement | tests/internal/hash_table/hopscotch/hopscotch.go:123 | *as written*: a key placed 32 to 63 slots from home gets no hop bit. Its home's word is unchanged and Get's walk misses the key, although a slot holds it |
| Hopscotch.ClearSound | tests/internal/hash_table/hopscotch/hopscotch.go:161-164 | Delete's write keeps the hop bits sound and the words `uint32`. It removes one occupied slot and at most the key |
| Hopscotch.ClearExact | tests/internal/hash_table/hopscotch/hopscotch.go:161-164 | Delete's write keeps an exact table exact for `m - {key}` |
| Hopscotch.ClearSeen | tests/internal/hash_table/hopscotch/hopscotch.go:162-163 | Clearing a slot and its bit leaves every other slot seen |
| Hopscotch.InsertThenLookup | tests/internal/hash_table/hopscotch/hopscotch.go:43-145 | On an exact table, after Insert replaces the value or places the key fewer than 32 slots from home, Get finds the inserted value |
| Hopscotch.OverwriteThenLookup | tests/internal/hash_table/hopscotch/hopscotch.go:58-61 | After Insert replaces a value, Get finds the new value |
| Hopscotch.PlaceThenLookup | tests/internal/hash_table/hopscotch/hopscotch.go:122-124 | After Insert places the pair fewer than 32 slots from home, Get finds it |
| Hopscotch.RefreshLookup | tests/internal/hash_table/hopscotch/hopscotch.go:58-59 | Get sees a replaced value |
| Hopscotch.PlaceLookup | tests/internal/hash_table/hopscotch/hopscotch.go:122-123 | Get sees a placement fewer than 32 slots from home |
| Hopscotch.DeleteThenLookup | tests/internal/hash_table/hopscotch/hopscotch.go:147-171 | On an exact table, after Delete, Get no longer finds the key |
| Hopscotch.Blank | tests/internal/hash_table/hopscotch/hopscotch.go:34-35 | A fresh table is sound, visible, holds the empty map and counts no slot |
| Hopscotch.HopscotchTable.constructor | tests/internal/hash_table/hopscotch/hopscotch.go:30-41 | `New`: capacity `nextPowerOfTwo`, empty slots and zero words, load factor 1, the collision latch armed |
| Hopscotch.HopscotchTable.Size | tests/internal/hash_table/hopscotch/hopscotch.go:193-195 | `Size()` counts occupied slots, and while exact it is the size of the map |
| Hopscotch.HopscotchTable.Capacity | tests/internal/hash_table/hopscotch/hopscotch.go:197-199 | `Capacity()` is a power of two of at least 8 |
| Hopscotch.HopscotchTable.ResetProbes | tests/internal/hash_table/hopscotch/hopscotch.go:181-183 | Sets the probe counter to zero |
| Hopscotch.HopscotchTable.ResetCollisions | tests/internal/hash_table/hopscotch/hopscotch.go:189-191 | Sets the collision counter to zero |
| Hopscotch.HopscotchTable.SetLoadFactor | tests/internal/hash_table/hopscotch/hopscotch.go:173-175 | Sets the load factor |
| Hopscotch.HopscotchTable.Find | tests/internal/hash_table/hopscotch/hopscotch.go:131-142 | The hop-word loop returns `Scan`'s offset and probes |
| Hopscotch.HopscotchTable.SeekFree | tests/internal/hash_table/hopscotch/hopscotch.go:72-83 | The free-slot loop returns `FreeFrom` and one probe per slot looked at |
| Hopscotch.HopscotchTable.Candidate | tests/internal/hash_table/hopscotch/hopscotch.go:95-111 | The move search returns the highest `hopDist` whose bit is set in the word `hopDist` slots before the free slot, or 0 |
| Hopscotch.HopscotchTable.Refresh | tests/internal/hash_table/hopscotch/hopscotch.go:58-61 | Only the found slot's value changes, and the map takes the new value. Every other pair held alone is still held |
| Hopscotch.HopscotchTable.Put | tests/internal/hash_table/hopscotch/hopscotch.go:122-124 | The pair is written and `1 << dist` is or-ed into the home word. Size grows, and the table stays exact only when `dist < 32`. Every other pair held alone is still held |
| Hopscotch.HopscotchTable.Clear | tests/internal/hash_table/hopscotch/hopscotch.go:161-164 | The slot is emptied, its bit cleared, and the key leaves the map |
| Hopscotch.HopscotchTable.Get | tests/internal/hash_table/hopscotch/hopscotch.go:127-145 | Answers the value at the slot `Scan` finds, and the map's answer while exact |
| Hopscotch.HopscotchTable.Delete | tests/internal/hash_table/hopscotch/hopscotch.go:147-171 | The map loses the key. A found slot is emptied and its bit cleared; otherwise nothing but probes changes |
| Hopscotch.HopscotchTable.InsertHere | tests/internal/hash_table/hopscotch/hopscotch.go:48-124 | Follows `PlanOf`: replace the value, place the pair, or grow. The new slots, words, size, probes and collision latch are stated for the first two |
| Hopscotch.HopscotchTable.InsertNew | tests/internal/hash_table/hopscotch/hopscotch.go:67-124 | A new key counts a collision once per latch and is placed at the first free slot when that slot is fewer than 64 away. Otherwise the table grows |
| Hopscotch.HopscotchTable.Settle | tests/internal/hash_table/hopscotch/hopscotch.go:85-124 | After the search: grow when nothing was found or the move step fails, else place the pair `dist` slots from home |
| Hopscotch.HopscotchTable.Retry | tests/internal/hash_table/hopscotch/hopscotch.go:86-90 | Resize, insert again and rearm the latch. Capacity grows and the key is held |
| Hopscotch.HopscotchTable.Insert | tests/internal/hash_table/hopscotch/hopscotch.go:43-125 | The map becomes `contents[key := value]` and a returned Insert leaves the pair in a slot, every slot drawn from the old pairs or the new one, and every old pair of another key that was held alone still held. Without a resize the new state is the plan's: an overwrite adds the walk's probes and leaves the collision counters, a placement adds the free-slot probes and counts a collision once per latch |
| Hopscotch.HopscotchTable.Resize | tests/internal/hash_table/hopscotch/hopscotch.go:201-218 | At least doubles the capacity. The map and keys are kept and the collision count is restored. Every new slot holds an old pair, every old pair held alone is still held, and on a table with no key twice every old pair is held. Doubling past `int` panics |
| Hopscotch.HopscotchTable.Regrow | tests/internal/hash_table/hopscotch/hopscotch.go:202-209 | Fresh empty arrays of twice the capacity |
| Hopscotch.HopscotchTable.ReinsertAll | tests/internal/hash_table/hopscotch/hopscotch.go:211-215 | The rebuilt map is the old slots' pairs, with the same keys. Every new slot holds an old pair, and every old pair held alone is still held |
| Hopscotch.HopscotchTable.ReinsertNext | tests/internal/hash_table/hopscotch/hopscotch.go:211-215 | One pass of the loop: the map, keys and kept pairs of the first `b` old slots extend to the first `b + 1` |
| Cuckoo.MulWord | tests/internal/hash_table/cuckoo/cuckoo.go:301-306 | `uint64(key) * salt` wraps below 2^64 |
| Cuckoo.SplitMix | tests/internal/hash_table/cuckoo/cuckoo.go:308-313 | `splitmix` wraps every step to 64 bits, so its result is a `uint64` |
| Cuckoo.XorBelow | tests/internal/hash_table/cuckoo/cuckoo.go:312 | Xor of two words below a power of two stays below it |
| Cuckoo.MixWord | tests/internal/hash_table/cuckoo/cuckoo.go:232 | `splitmix(uint64(key) ^ salt)` is a `uint64` |
| Cuckoo.Mask | tests/internal/hash_table/cuckoo/cuckoo.go:44 | `uint32(n - 1)` is below `n` |
| Cuckoo.Index | tests/internal/hash_table/cuckoo/cuckoo.go:301-306 | A slot never exceeds the mask |
| Cuckoo.SameLowBits | tests/internal/hash_table/cuckoo/cuckoo.go:301-306 | Keys that agree in their low 32 bits get the same slots in both arrays under any salts |
| Cuckoo.LowBitsShift | tests/internal/hash_table/cuckoo/cuckoo.go:302 | Adding a multiple of 2^32 keeps a key's low 32 bits |
| Cuckoo.HomedAbsent | tests/internal/hash_table/cuckoo/cuckoo.go:101-117 | When keys sit in their own slots, a key missing from both its slots is held nowhere |
| Cuckoo.Lookup | tests/internal/hash_table/cuckoo/cuckoo.go:101-117 | Get answers a pair that one of the arrays holds, and nothing exactly when neither of the key's two slots holds it |
| Cuckoo.Remove | tests/internal/hash_table/cuckoo/cuckoo.go:119-136 | Delete keeps both arrays' lengths, empties only slots holding the key, leaves the key's `table1` slot without it, and its `table2` slot too when the `table1` slot did not hold it |
| Cuckoo.LookupExact | tests/internal/hash_table/cuckoo/cuckoo.go:101-117 | On an exact table Get answers the map |
| Cuckoo.RemoveExact | tests/internal/hash_table/cuckoo/cuckoo.go:119-136 | Delete keeps an exact table exact for `m - {key}`, finding the key exactly when it is in `m` |
| Cuckoo.KickRun | tests/internal/hash_table/cuckoo/cuckoo.go:166-214 | The kick loop keeps the arrays' lengths and makes at most 500 kicks. A dropped pair costs all 500 |
| Cuckoo.HomedPut | tests/internal/hash_table/cuckoo/cuckoo.go:176 | Writing a key into its own slot keeps every key in its slots |
| Cuckoo.KickHomed | tests/internal/hash_table/cuckoo/cuckoo.go:166-214 | The kick loop only writes keys into their own slots |
| Cuckoo.SwapStores | tests/internal/hash_table/cuckoo/cuckoo.go:193-194 | A kick swaps the carried pair in, and the resident becomes the carried pair of the same map |
| Cuckoo.StepStores | tests/internal/hash_table/cuckoo/cuckoo.go:172-208 | One kick on the joined arrays keeps keys distinct and the map described, the carried key aside |
| Cuckoo.KickFresh | tests/internal/hash_table/cuckoo/cuckoo.go:166-214 | Carrying a key that no slot holds never overwrites. Either the arrays hold the map, or exactly one pair of the map is dropped |
| Cuckoo.InsertExact | tests/internal/hash_table/cuckoo/cuckoo.go:166-214 | insertOnce keeps an exact table exact for `m[key := value]`, unless a pair is dropped or the key sat only in its `table2` slot |
| Cuckoo.Refill | tests/internal/hash_table/cuckoo/cuckoo.go:224-267 | Rebuilding places and drops at most one pair per entry, at most one drop when it stops early, and at most 500 kicks per pair |
| Cuckoo.RefillHomed | tests/internal/hash_table/cuckoo/cuckoo.go:224-267 | A rebuild keeps keys in their slots |
| Cuckoo.Blank | tests/internal/hash_table/cuckoo/cuckoo.go:221-222 | Fresh arrays hold nothing |
| Cuckoo.BlankExact | tests/internal/hash_table/cuckoo/cuckoo.go:292-295 | Empty arrays hold the empty map under any scheme |
| Cuckoo.Live | tests/internal/hash_table/cuckoo/cuckoo.go:77-81 | The collection loop gathers at most one pair per slot |
| Cuckoo.LiveJoin | tests/internal/hash_table/cuckoo/cuckoo.go:76-86 | Gathering `table1` then `table2` is gathering their join |
| Cuckoo.LiveFrom | tests/internal/hash_table/cuckoo/cuckoo.go:77-81 | Every gathered pair is the pair of an occupied slot |
| Cuckoo.LiveApart | tests/internal/hash_table/cuckoo/cuckoo.go:278-288 | Slots with distinct keys gather pairs with distinct keys |
| Cuckoo.ExtendSnoc | tests/internal/hash_table/cuckoo/cuckoo.go:296-298 | Writing one more pair extends the map by that pair |
| Cuckoo.LiveMap | tests/internal/hash_table/cuckoo/cuckoo.go:278-288 | Writing the gathered pairs in order gives the map the slots describe |
| Cuckoo.ExtendKeys | tests/internal/hash_table/cuckoo/cuckoo.go:296-298 | The keys added are exactly those of the pairs written |
| Cuckoo.ExtendFresh | tests/internal/hash_table/cuckoo/cuckoo.go:296-298 | With distinct new keys, each key is not among those written before it |
| Cuckoo.NotStale | tests/internal/hash_table/cuckoo/cuckoo.go:180-183 | A key absent from the map cannot be held only in its `table2` slot |
| Cuckoo.CollectExact | tests/internal/hash_table/cuckoo/cuckoo.go:278-288 | Gathering an exact table gives distinct keys that rebuild its map |
| Cuckoo.Crowd | tests/internal/hash_table/cuckoo/cuckoo.go:169-213 | *as written*: three keys sharing two slots cycle until the kicks run out, and the pair then carried is dropped and held by neither slot |
| Cuckoo.TwoKeys | tests/internal/hash_table/cuckoo/cuckoo.go:185-194 | Into empty arrays, a second key with the same low 32 bits takes the first key's `table1` slot and kicks it to `table2` |
| Cuckoo.LostUpdate | tests/internal/hash_table/cuckoo/cuckoo.go:203-206 | *as written*: re-inserting a key whose old pair sits in `table2` overwrites the new value with the old one, and Get answers the old value |
| Cuckoo.DeleteRevives | tests/internal/hash_table/cuckoo/cuckoo.go:119-136 | *as written*: after a delete and a re-insert the key is held twice, and deleting it again revives the old value |
| Cuckoo.ThirdKeyLosesFirst | tests/internal/hash_table/cuckoo/cuckoo.go:169-213 | *as written*: a third key with the same low bits makes the insertion drop the first key's pair, and Get misses it |
| Cuckoo.RehashMisses | tests/internal/hash_table/cuckoo/cuckoo.go:232 | *as written*: rehash places a key by splitmix, but Get looks where the multiplicative hash points and misses it |
| Cuckoo.MixedSlot | tests/internal/hash_table/cuckoo/cuckoo.go:308-313 | The splitmix slot of `RehashMisses`'s key is 0 |
| Cuckoo.MultipliedSlots | tests/internal/hash_table/cuckoo/cuckoo.go:301-306 | The multiplicative slots of that key are 2 in both arrays |
| Cuckoo.NewSizing | tests/internal/hash_table/cuckoo/cuckoo.go:31-38 | `New` gives each array a power of two of at least 8 slots, more than the capacity asked for, and 16 for a capacity below 1 |
| Cuckoo.PerTable | tests/internal/hash_table/cuckoo/cuckoo.go:31-37 | `minPerTable` exceeds the capacity asked for and is at least 2 |
| Cuckoo.Kick | tests/internal/hash_table/cuckoo/cuckoo.go:169-213 | The in-place kick loop computes `KickRun` and the first-kick collision test |
| Cuckoo.Rebuild | tests/internal/hash_table/cuckoo/cuckoo.go:221-267 | Fresh arrays rebuilt by `Refill`, which stops at the first drop. The kicks are counted |
| Cuckoo.CuckooTable.constructor | tests/internal/hash_table/cuckoo/cuckoo.go:31-53 | `New`: two empty arrays of `nextPowerOfTwo(minPerTable)` slots, load factor 1/2, two salts drawn |
| Cuckoo.CuckooTable.Size | tests/internal/hash_table/cuckoo/cuckoo.go:158-160 | While exact, `Size()` is the size of the map |
| Cuckoo.CuckooTable.Capacity | tests/internal/hash_table/cuckoo/cuckoo.go:162-164 | `Capacity()` is the power of two `New` chose, at most the arrays' length |
| Cuckoo.CuckooTable.ResetProbes | tests/internal/hash_table/cuckoo/cuckoo.go:146-148 | Sets the probe counter to zero |
| Cuckoo.CuckooTable.ResetCollisions | tests/internal/hash_table/cuckoo/cuckoo.go:154-156 | Sets the collision counter to zero |
| Cuckoo.CuckooTable.SetLoadFactor | tests/internal/hash_table/cuckoo/cuckoo.go:138-140 | Sets the load factor |
| Cuckoo.CuckooTable.Get | tests/internal/hash_table/cuckoo/cuckoo.go:101-117 | Answers `Lookup` with one or two probes, and the map's answer while exact |
| Cuckoo.CuckooTable.Delete | tests/internal/hash_table/cuckoo/cuckoo.go:119-136 | The map loses the key. The first slot holding it is emptied and size drops when it was found |
| Cuckoo.CuckooTable.InsertOnce | tests/internal/hash_table/cuckoo/cuckoo.go:166-214 | Leaves `KickRun`'s arrays, succeeding unless a pair is dropped. The key enters the map, probes, size and collisions are stated, and exactness is kept exactly as `InsertExact` allows |
| Cuckoo.CuckooTable.Collect | tests/internal/hash_table/cuckoo/cuckoo.go:76-86 | Gathers the pairs of `table1`, then of `table2` |
| Cuckoo.CuckooTable.Rehash | tests/internal/hash_table/cuckoo/cuckoo.go:216-275 | Draws two salts and rebuilds by splitmix. On success it adopts the arrays and salts and sets size to `len(all)`; on a drop it keeps them |
| Cuckoo.CuckooTable.Adopt | tests/internal/hash_table/cuckoo/cuckoo.go:269-274 | The rebuilt arrays and salts replace the old ones |
| Cuckoo.CuckooTable.Regrow | tests/internal/hash_table/cuckoo/cuckoo.go:290-295 | Empty arrays four times as long |
| Cuckoo.CuckooTable.ReinsertAll | tests/internal/hash_table/cuckoo/cuckoo.go:296-298 | The arrays become `Refill`'s, with a drop ignored. Distinct new keys extend the map and keep it exact unless dropped |
| Cuckoo.CuckooTable.ReinsertNext | tests/internal/hash_table/cuckoo/cuckoo.go:297 | One `insertOnce(e, false)` advances the reinsertion by one pair |
| Cuckoo.CuckooTable.Settle | tests/internal/hash_table/cuckoo/cuckoo.go:296-298 | After reinsertion the map is the old one, and exactness is kept only if nothing was dropped |
| Cuckoo.CuckooTable.ResizeDouble | tests/internal/hash_table/cuckoo/cuckoo.go:277-299 | Quadruples the arrays under the same salts and keeps the map, exact unless a pair is dropped. Quadrupling past `int` panics |
| Cuckoo.CuckooTable.Relocate | tests/internal/hash_table/cuckoo/cuckoo.go:290-298 | The quadrupled arrays hold `Refill` of the gathered pairs |
| Cuckoo.CuckooTable.Insert | tests/internal/hash_table/cuckoo/cuckoo.go:55-99 | A returned Insert leaves `contents[key := value]`. When not crowded and nothing is dropped, the call is one `insertOnce` with its counters |
| Cuckoo.CuckooTable.Crowded | tests/internal/hash_table/cuckoo/cuckoo.go:61 | With a load factor of at most 1, a table that is not crowded has fewer pairs than twice an array's length |
| Cuckoo.CuckooTable.Recover | tests/internal/hash_table/cuckoo/cuckoo.go:71-98 | Rounds of rehash or quadrupling end with the map kept, or a panic |
| Cuckoo.CuckooTable.Attempt | tests/internal/hash_table/cuckoo/cuckoo.go:73-97 | Each round ends the call, grows the arrays, or counts one more failed rehash |
| Cuckoo.CuckooTable.Again | tests/internal/hash_table/cuckoo/cuckoo.go:60-69 | A later round quadruples a crowded table and retries insertOnce without counting a collision |
| Cuckoo.CuckooTable.TryRehash | tests/internal/hash_table/cuckoo/cuckoo.go:73-93 | Counts one more rehash, and resets the count on success |
| Cuckoo.CuckooTable.Grow | tests/internal/hash_table/cuckoo/cuckoo.go:96-97 | `resizeDouble` followed by resetting the rehash count |

## Left out

- Floating-point load factors are modelled as exact rationals `lfNum / lfDen`, so rounding in `float64(size) / float64(cap)` is not modelled. Cuckoo's `int(float64(initialCapacity) / (2 * 0.5)) + 1` is modelled as `initialCapacity + 1`, which the float conversion rounds for capacities above 2^53.
- `Probes()` and `Collisions()` are read-only accessors without a contract of their own. The probe counts during a resize are stated only as non-decreasing (Chain) or left open (the other engines).
- Chain, DoubleHash and RobinHood treat `cap * 2` as unbounded; Go's `int` overflow of the capacity needs more memory than any machine has. Hopscotch and Cuckoo model it as a panic (`Panicked`) because their retry loops need it to terminate.
- Memory exhaustion and Go's allocation failures are not modelled.
- The large-volume tests of `hash_table_test.go` (many millions of keys), the benchmark code, the graphics output and the other packages of the repository are not part of this model.
- The test scenarios (`BasicScenario`, `UpdateScenario`) are stated for the chaining engine only.
- Cuckoo's random source is a parameter (`source`, a stream of 64-bit words). Go seeds it from the clock.
- Values are opaque (`V`); Go's `any` comparisons in the tests are modelled on `string`.
- Hopscotch's `inUse = false` slots are modelled as `Empty`; a cleared slot keeps its key in Go, which nothing reads.
- Hopscotch.HopscotchTable.Delete: Go's guard for an empty bucket array is not modelled as a branch, because the capacity is at least 8.
- RobinHood.RobinHoodTable.Delete requires a slot that is not a tombstone; on an all-tombstone table Go's loop never ends.
- RobinHood.RobinHoodTable.Insert requires `shouldResize` or a free slot; on a full table (load factor above 1) Go's loop never ends.
- Common.NextPowerOfTwo requires `n` at most 2^62. Above that, and not a power of two, Go's `1 << bits.Len(n)` is `1 << 63`, which wraps to a negative `int`, and `make` then panics; the model does not represent that panic.
- Chain.ChainTable.constructor, DoubleHash.DoubleHashTable.constructor and RobinHood.RobinHoodTable.constructor require a capacity of at most 2^62, for the same reason.
- Hopscotch.HopscotchTable.constructor requires a capacity of at most 2^62, for the same reason.
- Cuckoo.CuckooTable.constructor requires `initialCapacity + 1` to be at most 2^62, for the same reason.
- DoubleHash.DoubleHashTable.Insert states only a sub-map of the ideal map, because a failed resize loses the entries not yet reinserted. The exact map is stated when no resize is due and the walk has room.
- RobinHood.RobinHoodTable.Insert and Cuckoo.CuckooTable.Insert do not promise that the slots still hold `contents`. They state when `exact` is kept, and the *as written* lemmas show how it is lost.
- Hopscotch.HopscotchTable.Insert, Resize and ReinsertAll promise that pairs held alone survive, not that the slots still hold `contents`: once a hidden placement (HiddenPlacement) lets a key be held twice, a later write may replace either copy.
- Cuckoo.CuckooTable.Insert: a panic leaves either the old map or the map with the pair, because the panic can come before or after the first `insertOnce`.
- Cuckoo.CuckooTable.Recover and Cuckoo.CuckooTable.Attempt promise only the map, monotone exactness, the panic bound and progress; the arrays after a rehash are stated by `Rehash`.
- Cuckoo.CuckooTable.Rehash clears `exact`: a rebuilt table is placed by splitmix and is not regained as exact (RehashMisses). Its `size` is `len(all)`, which overcounts when a key occurs twice in `all`.
- Cuckoo.CuckooTable.ResizeDouble states the fields it leaves unchanged through its `modifies` frame rather than by `ensures`.
- Cuckoo.CuckooTable.Size states the map's size only while exact.
