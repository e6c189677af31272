# Fixed-capacity hash maps, modelled and verified in Dafny

This project models four hash tables of a benchmarking repository. Each table has a fixed capacity of 2^20 slots and stores integer
keys with integer values:

- **linear probing** — open addressing, a sequential wrap-around probe, tombstones on delete;
- **Robin Hood** — open addressing where every occupied slot stores its
  distance from its initial bucket (its *dib*); an insert swaps its candidate with a
  "richer" resident, and a lookup or delete stops early once its own distance
  exceeds the resident's; tombstones on delete;
- **separate chaining** — an array of chains; insert scans the chain and then prepends, and delete unlinks one node;
- **cuckoo** — two candidate slots per key and an evict-and-relocate cycle bounded by
  `MAX_DISPLACEMENTS = 500`; the table counts its failed inserts;

It also models the hashing helpers the four tables share: the 64-bit `mix` avalanche function, `get_index`,
`get_cuckoo_indices` and the `OpResult` record.

Layout:

| file | module | models |
|---|---|---|
| `common.dfy` | `Common` | `src/common.py`: bitwise operations on naturals, `mix`, the index helpers, wrap-around probe positions, `OpResult` |
| `counting.dfy` | `Counting` | counting slots of a kind, summing chain lengths, and the real-valued mean the metric methods return |
| `linear_probing.dfy` | `LinearProbing` | `src/linear_probing.py` |
| `robin_hood.dfy` | `RobinHood` | `src/hashmaps/robin_hood.py` |
| `robin_hood_tombstones.dfy` | `RobinHoodTombstones` | two ways Robin Hood's tombstones break its operations, and a corrected search, insert and delete (see Findings) |
| `chaining.dfy` | `Chaining` | `src/hashmaps/chaining.py` |
| `cuckoo.dfy` | `Cuckoo` | `src/cuckoo.py` |

Each table module has the same shape:

- A **value-level specification**. The table is a `datatype` holding its slots (or chains) as a `seq` plus its counters. Each operation is a function `InsertSpec`, `LookupSpec` or `DeleteSpec` that returns the new table and the `OpResult`.
- **Lemmas** about those functions. They cover the counter invariants, what a lookup sees after an insert or a delete, which key/value pairs a table holds, and layout invariants such as the Robin Hood distances and cuckoo candidate slots.
- A **class** with the source's own fields, `table`/`buckets` as an `array` plus the counters. Its methods run the source's loops in place with loop invariants. Each method is proved to leave the object in exactly the state the specification function gives, and to return the same result.

Python's `&`, `^`, `>>` and masked multiplication on unbounded integers are written out on naturals: `And`, `Xor` and `Shr` bit by bit. Lemmas connect them to `%` and `/` by powers of two:

- masking with `2^k - 1` is the remainder by `2^k`;
- `>> k` is division by `2^k`.

In the model, `mix` reduces its input with `%` by 2^64. `get_index` and `get_cuckoo_indices` reduce with `%` by `CAPACITY`. The lemmas `MaskOfNaturalInput`, `GetIndexIsMask`, `CuckooIndicesAreMasks` and `NextIndexIsMask` prove that these equal the source's masks.

Where the code and the repository's prose description disagree, the model follows the code:

- **Failed cuckoo insert.** The prose says it leaves `size` unchanged and keeps the last displaced entry in a slot. The code increments `size` in round 0 and never rolls it back (`src/cuckoo.py:98-99`). When the cycle runs out, it drops the last evicted pair (`src/cuckoo.py:123-126`). `Cuckoo.WellFormed` states the exact invariant: `size` equals the number of occupied slots plus `failedInserts`.
- **Last-inserted value.** The prose promises that a lookup always returns a key's last-inserted value. Neither open-addressing table keeps that promise once tombstones exist: linear probing and Robin Hood can both hold a key twice and later find the stale copy. Robin Hood can also miss a key that is stored. See Findings.
- **Fixed points of `mix`.** The prose calls `mix` a fixed-point-free avalanche transform. The code maps 0 to 0 (`Common.MixZero`): every shift-xor and every multiplication keeps 0.
- **Coinciding cuckoo candidates.** The prose says the two cuckoo indices cannot coincide at a capacity of 2^20. The code takes bits 0-19 and bits 32-51 of the same 64-bit hash, and these can be equal. Key 0 has slot 0 for both (`Common.CuckooIndicesOfZero`). The model allows equal candidates: `Cuckoo.Alternate` then returns that one slot, and relocation evicts into the slot it just filled, as the code does.

## Model

| member | source | states |
|---|---|---|
| Common.Mix | src/common.py:10-29 | the mixed hash is below 2^64 (every multiplication is masked) |
| Common.MixReducesInput | src/common.py:21 | `mix(x) == mix(x mod 2^64)`: only the low 64 bits of the key matter |
| Common.MaskOfNaturalInput | src/common.py:21 | `x & 0xFFFFFFFFFFFFFFFF` on a natural is its remainder by 2^64 |
| Common.MixZero | src/common.py:23-29 | `mix(0) == 0`: every step maps 0 to 0 |
| Common.AndCapacityMask | src/common.py:7 | because `CAPACITY = 1 << 20` is a power of two, `a & (CAPACITY - 1) == a mod CAPACITY` |
| Common.GetIndex | src/common.py:32-42 | the single-hash index is in `[0, CAPACITY)` |
| Common.GetIndexIsMask | src/common.py:42 | the index is exactly `mix(key) & (CAPACITY - 1)` |
| Common.CuckooIndices | src/common.py:45-58 | both cuckoo indices are below `CAPACITY` and the first one equals `get_index(key)` |
| Common.CuckooIndicesAreMasks | src/common.py:55-57 | the indices are exactly `h & (CAPACITY - 1)` and `(h >> 32) & (CAPACITY - 1)` of `h = mix(key)` |
| Common.CuckooIndicesOfZero | src/common.py:55-57 | the two cuckoo candidates of key 0 are both slot 0 |
| Common.ShiftedKeyCollides | src/common.py:21 | `key` and `key + 2^64` are different keys with the same home slot |
| Common.CollidingKeysInRange | src/common.py:32-42 | two different keys in `[0, 2^20]`, inside the 64-bit key range, have the same home slot |
| Common.NextIndex | src/linear_probing.py:78 | the advanced probe index stays below `CAPACITY` |
| Common.NextIndexIsMask | src/linear_probing.py:78 | advancing is exactly `(index + 1) & (capacity - 1)` |
| Common.AdvanceProbe | src/linear_probing.py:78-83 | the j-th advance from the home slot reaches the (j+1)-th probe position, and is back at the home slot exactly after `CAPACITY` probes |
| Common.ProbeSlotInjective | src/linear_probing.py:57-83 | fewer than `CAPACITY` probes never visit a slot twice |
| Common.ProbeSlotWraps | src/linear_probing.py:80 | a probe returns to its start slot exactly after `CAPACITY` steps |
| LinearProbing.InsertSpec | src/linear_probing.py:42-83 | an insert examines between 1 and `CAPACITY` slots and never reports a displacement |
| LinearProbing.LookupSpec | src/linear_probing.py:85-116 | a lookup examines 1 to `CAPACITY` slots, succeeds exactly when it returns a value, and a returned value is held by an Occupied slot with the key |
| LinearProbing.DeleteSpec | src/linear_probing.py:118-152 | a delete examines 1 to `CAPACITY` slots and succeeds exactly when a lookup of the key would |
| LinearProbing.EmptyTableWellFormed | src/linear_probing.py:36-40 | the fresh table's counters match its (all Empty) slots |
| LinearProbing.CountersBounded | src/linear_probing.py:38-39 | when the counters match the slots, `0 <= size`, `0 <= tombstones` and `size + tombstones <= capacity` |
| LinearProbing.InsertKeepsWellFormed | src/linear_probing.py:61-70 | after an insert `size` still counts Occupied slots and `tombstones` counts Tombstone slots |
| LinearProbing.DeleteKeepsWellFormed | src/linear_probing.py:139-145 | after a delete both counters still match the slots |
| LinearProbing.InsertSucceedsIff | src/linear_probing.py:61-83 | an insert succeeds if and only if some slot is Empty, a Tombstone or holds the key; a failed insert changes nothing and reports `CAPACITY` probes |
| LinearProbing.InsertPrefixUnchanged | src/linear_probing.py:57-78 | the slots an insert walks past are Occupied with other keys and remain unchanged |
| LinearProbing.InsertThenLookup | src/linear_probing.py:42-116 | after a successful insert, looking the key up finds the new value with the same probe count as the insert |
| LinearProbing.InsertTwice | src/linear_probing.py:71-75 | inserting a present key again succeeds, keeps `size`, and the lookup sees the newer value |
| LinearProbing.DeleteThenLookup | src/linear_probing.py:136-145 | when no key is in two slots, a successful delete lowers `size` by one and the key is then not found |
| LinearProbing.EmptyTableNoGaps | src/linear_probing.py:36-40 | the fresh table has no gaps: every Occupied slot is reachable from its key's home slot over non-Empty slots |
| LinearProbing.InsertKeepsNoGaps | src/linear_probing.py:57-83 | an insert keeps every probe path unbroken |
| LinearProbing.DeleteKeepsNoGaps | src/linear_probing.py:139-145 | turning a slot into a Tombstone (not Empty) keeps every probe path unbroken |
| LinearProbing.LookupFindsPresentKey | src/linear_probing.py:99-116 | with unbroken probe paths, a key held by any Occupied slot is found by lookup |
| LinearProbing.DeleteLeavesStaleDuplicate | src/linear_probing.py:61-70 | two colliding keys a, key: insert a, insert key, delete a, insert key leaves `key` in two slots; deleting it then still finds the older value |
| LinearProbing.StaleDuplicateExists | src/linear_probing.py:61-70 | for every key, `key + 2^64` is a colliding partner that shows the duplicate (a partner outside the 64-bit key range) |
| LinearProbing.FreeOffset | src/linear_probing.py:61-70 | the first non-Occupied slot of a probe path (or `CAPACITY`): every slot before it is Occupied |
| LinearProbing.CorrectedInsertSpec | src/linear_probing.py:42-83 | the corrected insert (search for the key first, then take the first free slot) examines 1 to `CAPACITY` slots |
| LinearProbing.SearchMissMeansAbsent | src/linear_probing.py:99-116 | with unbroken probe paths, a lookup that stops at an Empty slot or wraps means the key is in no Occupied slot |
| LinearProbing.InsertOffsetIsFreeOffset | src/linear_probing.py:61-70 | for an absent key the source's insert and the corrected insert choose the same slot |
| LinearProbing.CorrectedInsertKeepsUniqueKeys | src/linear_probing.py:61-75 | the corrected insert keeps both "no key in two slots" and unbroken probe paths |
| LinearProbing.CorrectedDeleteThenLookup | src/linear_probing.py:139-145 | with the corrected insert, a key that was deleted is really gone |
| LinearProbing.LinearProbingMap.constructor | src/linear_probing.py:36-40 | a fresh map is all Empty with both counters 0 |
| LinearProbing.LinearProbingMap.Insert | src/linear_probing.py:42-83 | the probe loop leaves the array and counters as `InsertSpec` gives and keeps the counter invariant |
| LinearProbing.LinearProbingMap.Lookup | src/linear_probing.py:85-116 | the probe loop returns the result and value of `LookupSpec` |
| LinearProbing.LinearProbingMap.Delete | src/linear_probing.py:118-152 | the probe loop leaves the array and counters as `DeleteSpec` gives and keeps the counter invariant |
| LinearProbing.LinearProbingMap.LoadFactor | src/linear_probing.py:154-156 | the load factor lies in [0, 1] and times the capacity is the number of Occupied slots |
| LinearProbing.LinearProbingMap.TombstoneCount | src/linear_probing.py:158-160 | the counter is the number of Tombstone slots, at most the non-Occupied ones |
| RobinHood.InsertLoop | src/hashmaps/robin_hood.py:44-78 | while a free slot lies ahead, the insert loop ends within `CAPACITY` probes, after the probe it started at |
| RobinHood.InsertSpec | src/hashmaps/robin_hood.py:26-78 | with a non-Occupied slot in the table, insert succeeds within 1 to `CAPACITY` probes and grows `size` by 0 or 1 |
| RobinHood.InsertLoopCounts | src/hashmaps/robin_hood.py:48-58 | the loop adds one Occupied slot exactly when it places the candidate, and consumes a tombstone exactly when that slot was one |
| RobinHood.InsertLoopPairs | src/hashmaps/robin_hood.py:48-69 | no pair is lost: the pairs after the loop plus the one overwritten value equal the pairs before plus the candidate |
| RobinHood.InsertLoopDibs | src/hashmaps/robin_hood.py:64-73 | swaps keep every Occupied slot's dib equal to its distance from its key's home slot |
| RobinHood.InsertLoopSkip | src/hashmaps/robin_hood.py:44-73 | until the new key first claims a slot the loop only walks, so it reaches a claiming slot and continues from there |
| RobinHood.InsertLoopClaimed | src/hashmaps/robin_hood.py:48-69 | the slot where the new key is first placed or matched holds it with the new value when the loop ends |
| RobinHood.EmptyTableWellFormed | src/hashmaps/robin_hood.py:20-24 | the fresh table's counters match and its (absent) dibs are exact |
| RobinHood.CountersBounded | src/hashmaps/robin_hood.py:22-23 | when the counters match the slots, `size + tombstones <= capacity` and both are non-negative |
| RobinHood.InsertKeepsWellFormed | src/hashmaps/robin_hood.py:48-73 | an insert keeps both counters exact and every dib equal to its slot's distance from home |
| RobinHood.InsertKeepsPairs | src/hashmaps/robin_hood.py:48-69 | an insert that grows `size` adds exactly its pair and loses none; any insert makes the key set the old one plus the key |
| RobinHood.InsertUsesFirstFree | src/hashmaps/robin_hood.py:44-58 | every probe before the last meets an Occupied slot; `size` grows iff the last slot was free, `tombstones` drops iff it was a Tombstone; slots beyond the last probe are unchanged |
| RobinHood.InsertThenLookup | src/hashmaps/robin_hood.py:26-116 | after an insert a lookup finds the new value, at the slot the key claimed, within the insert's probe count |
| RobinHood.LookupSpec | src/hashmaps/robin_hood.py:80-116 | a lookup examines 1 to `CAPACITY` slots, succeeds exactly when it returns a value, and a returned value is held by an Occupied slot with the key |
| RobinHood.DeleteSpec | src/hashmaps/robin_hood.py:118-155 | a delete examines 1 to `CAPACITY` slots, succeeds exactly when lookup does, and otherwise changes nothing |
| RobinHood.DeleteKeepsWellFormed | src/hashmaps/robin_hood.py:139-145 | a delete keeps the counters exact and every remaining dib exact |
| RobinHood.DeleteRemovesPair | src/hashmaps/robin_hood.py:139-145 | a successful delete removes exactly the looked-up pair from the table's pairs |
| RobinHood.DeleteThenLookup | src/hashmaps/robin_hood.py:139-145 | when no key is in two slots, a successful delete lowers `size` by one and the key is then not found |
| RobinHood.DibIsDistance | src/hashmaps/robin_hood.py:64-73 | an Occupied slot's dib is its distance from its key's home slot, modulo the capacity |
| RobinHood.MaxDibIsMax | src/hashmaps/robin_hood.py:165-171 | the maximum dib bounds every Occupied slot's dib and is attained unless it is 0 |
| RobinHood.MeanDibBound | src/hashmaps/robin_hood.py:173-178 | the mean dib over Occupied slots lies between 0 and the maximum dib |
| RobinHood.RobinHoodMap.constructor | src/hashmaps/robin_hood.py:20-24 | a fresh map is all Empty with both counters 0 |
| RobinHood.RobinHoodMap.Insert | src/hashmaps/robin_hood.py:26-78 | the swapping probe loop leaves the array and counters as `InsertSpec` gives and keeps the counter and dib invariants |
| RobinHood.RobinHoodMap.Lookup | src/hashmaps/robin_hood.py:80-116 | the early-exit probe loop returns the result and value of `LookupSpec` |
| RobinHood.RobinHoodMap.Delete | src/hashmaps/robin_hood.py:118-155 | the early-exit probe loop leaves the array and counters as `DeleteSpec` gives and keeps the invariants |
| RobinHood.RobinHoodMap.LoadFactor | src/hashmaps/robin_hood.py:157-159 | the load factor lies in [0, 1] and times the capacity is the number of Occupied slots |
| RobinHood.RobinHoodMap.TombstoneCount | src/hashmaps/robin_hood.py:161-163 | the counter is the number of Tombstone slots, at most the non-Occupied ones |
| RobinHood.RobinHoodMap.GetMaxProbeLength | src/hashmaps/robin_hood.py:165-171 | the loop returns the largest dib of an Occupied slot (0 when none): it bounds every dib and is attained |
| RobinHood.RobinHoodMap.GetAvgProbeLength | src/hashmaps/robin_hood.py:173-178 | 0 for an empty table, otherwise the dib sum over Occupied slots divided by `size`; always between 0 and the maximum dib |
| RobinHoodTombstones.InsertSpecPlaces | src/hashmaps/robin_hood.py:44-58 | an insert whose key claims no slot before offset `k` and finds slot `k` free places the key there with dib `k`, adds one to `size` and uses up a tombstone if there was one |
| RobinHoodTombstones.DeleteLeavesStaleDuplicate | src/hashmaps/robin_hood.py:48-58 | two colliding keys a, key: insert a, insert key, delete a, insert key leaves `key` in two slots; deleting it then succeeds and lookup still returns the older value |
| RobinHoodTombstones.InsertThreeSharingHome | src/hashmaps/robin_hood.py:44-73 | three keys with one home slot, inserted into an empty table, occupy that slot and the next two with dibs 0, 1 and 2 |
| RobinHoodTombstones.DeleteThenRefill | src/hashmaps/robin_hood.py:48-58 | after deleting the middle key, a key whose home is that slot takes the tombstone with dib 0 |
| RobinHoodTombstones.RefilledMissesKey | src/hashmaps/robin_hood.py:105-108 | in that table the third key is still stored two slots past home, but lookup returns None and delete fails after 2 probes; the corrected lookup returns its value |
| RobinHoodTombstones.LookupMissesPresentKey | src/hashmaps/robin_hood.py:105-108 | keys a, b, k with home h and m with home h + 1: insert a, b, k, delete b, insert m leaves k stored, yet lookup of k returns None and delete of k fails |
| RobinHoodTombstones.FullSearchOffset | src/hashmaps/robin_hood.py:94-116 | the corrected search stops at the first Empty slot or slot with the key, or after a full wrap, and every slot before is neither |
| RobinHoodTombstones.CorrectedLookupSpec | src/hashmaps/robin_hood.py:80-116 | the corrected lookup examines 1 to `CAPACITY` slots, succeeds exactly when it returns a value, and a returned value is held by a slot with the key |
| RobinHoodTombstones.CorrectedDeleteSpec | src/hashmaps/robin_hood.py:118-155 | the corrected delete examines 1 to `CAPACITY` slots, succeeds exactly when the corrected lookup does, and otherwise changes nothing |
| RobinHoodTombstones.CorrectedInsertSpec | src/hashmaps/robin_hood.py:26-78 | the corrected insert always succeeds, within 1 to `CAPACITY` probes |
| RobinHoodTombstones.EmptyTableSound | src/hashmaps/robin_hood.py:20-24 | the fresh table satisfies the corrected operations' invariant |
| RobinHoodTombstones.InsertLoopNoGaps | src/hashmaps/robin_hood.py:44-73 | the insert loop, with its swaps, keeps every Occupied slot reachable from its home without crossing an Empty slot |
| RobinHoodTombstones.InsertLoopUnique | src/hashmaps/robin_hood.py:44-73 | the insert loop with a key that is in no slot keeps keys unique, through every swap |
| RobinHoodTombstones.InsertLoopPlacesNewKey | src/hashmaps/robin_hood.py:48-63 | the insert loop with a key that is in no slot ends by placing an entry, never by updating one |
| RobinHoodTombstones.InsertKeepsNoGaps | src/hashmaps/robin_hood.py:26-78 | an insert keeps every Occupied slot reachable from its home |
| RobinHoodTombstones.FullSearchReaches | src/hashmaps/robin_hood.py:94-104 | a stored key whose dib is exact and whose path has no Empty slot is reached by the corrected search, no later than its dib |
| RobinHoodTombstones.FullSearchMissMeansAbsent | src/hashmaps/robin_hood.py:98-100 | under the invariant a corrected search that stops without the key means no slot holds it |
| RobinHoodTombstones.CorrectedLookupFindsPresentKey | src/hashmaps/robin_hood.py:94-116 | under the invariant the corrected lookup finds every stored key within its dib plus one probes, and with unique keys returns its value |
| RobinHoodTombstones.CorrectedLookupMissMeansAbsent | src/hashmaps/robin_hood.py:94-116 | under the invariant the corrected lookup returns None if and only if no slot holds the key |
| RobinHoodTombstones.CorrectedInsertKeepsSound | src/hashmaps/robin_hood.py:26-78 | the corrected insert keeps counters, dibs, reachability and unique keys, and grows `size` exactly for a new key |
| RobinHoodTombstones.CorrectedInsertThenLookup | src/hashmaps/robin_hood.py:26-116 | after the corrected insert the corrected lookup returns the value just inserted |
| RobinHoodTombstones.CorrectedDeleteKeepsSound | src/hashmaps/robin_hood.py:118-155 | the corrected delete keeps counters, dibs, reachability and unique keys |
| RobinHoodTombstones.CorrectedDeleteThenLookup | src/hashmaps/robin_hood.py:118-155 | the corrected delete succeeds exactly when the key is stored, lowers `size` by one when it does, and afterwards the corrected lookup does not find the key |
| Chaining.EmptyTableWellFormed | src/hashmaps/chaining.py:28-31 | the fresh table (every chain empty, `size` 0) is well formed |
| Chaining.Find | src/hashmaps/chaining.py:49-56 | the chain walk stops at the first node with the key, or at the end of the chain |
| Chaining.InsertSpec | src/hashmaps/chaining.py:44-65 | a chaining insert never fails and reports no displacement |
| Chaining.LookupFindsStored | src/hashmaps/chaining.py:77-89 | in a well-formed table, lookup returns `value` if and only if the key's bucket holds the node (key, value) |
| Chaining.InsertKeepsWellFormed | src/hashmaps/chaining.py:45-62 | insert keeps every key in bucket `get_index(key)`, at most once per chain, and `size` equal to the total node count |
| Chaining.InsertThenLookup | src/hashmaps/chaining.py:44-89 | after insert the key maps to the new value and every other key maps to what it did before |
| Chaining.WriteFindsKey | src/hashmaps/chaining.py:48-61 | after updating or prepending, the chain walk finds the key with the new value |
| Chaining.WriteKeepsOthers | src/hashmaps/chaining.py:48-61 | updating or prepending one key leaves the walk for every other key finding the same node |
| Chaining.InsertCostsLookup | src/hashmaps/chaining.py:48-65 | for a present key insert keeps `size` and costs the lookup's probes; for a new key it adds one to `size` and costs the chain length plus one |
| Chaining.DeleteKeepsWellFormed | src/hashmaps/chaining.py:104-124 | unlinking a node keeps the placement, per-chain uniqueness and node-count invariants |
| Chaining.DeleteThenLookup | src/hashmaps/chaining.py:104-124 | after delete the key is not found and every other key maps to what it did before |
| Chaining.RemoveKeepsOthers | src/hashmaps/chaining.py:111-116 | unlinking one node hides its key and leaves the walk for every other key finding the same node |
| Chaining.DeleteRemovesNode | src/hashmaps/chaining.py:107-119 | a successful delete removes exactly one (key, v) node from the key's chain and lowers `size` by one; a failed one changes nothing |
| Chaining.MaxLengthIsMax | src/hashmaps/chaining.py:153-160 | the maximum chain length bounds every chain and is attained unless it is 0 |
| Chaining.TotalLengthAtLeast | src/hashmaps/chaining.py:144-147 | the total length is at least the number of non-empty chains |
| Chaining.TotalLengthAtMost | src/hashmaps/chaining.py:144-147 | the total length is at most the longest chain times the number of non-empty chains |
| Chaining.AverageChainBound | src/hashmaps/chaining.py:139-151 | with a non-empty chain, the average over non-empty chains lies between 1 and the longest chain |
| Chaining.ChainingMap.constructor | src/hashmaps/chaining.py:28-31 | a fresh map has only empty chains and `size` 0 |
| Chaining.ChainingMap.Insert | src/hashmaps/chaining.py:33-65 | the scan-then-prepend loop leaves buckets and `size` as `InsertSpec` gives and keeps the invariants |
| Chaining.ChainingMap.Lookup | src/hashmaps/chaining.py:67-89 | the chain walk returns the result and value of `LookupSpec` |
| Chaining.ChainingMap.Delete | src/hashmaps/chaining.py:91-124 | the walk with its `prev` position unlinks as `DeleteSpec` gives and keeps the invariants |
| Chaining.ChainingMap.LoadFactor | src/hashmaps/chaining.py:126-128 | the load factor times the capacity is the total number of nodes |
| Chaining.ChainingMap.GetChainLength | src/hashmaps/chaining.py:130-137 | the counting walk returns the number of nodes in the bucket |
| Chaining.ChainingMap.GetAvgChainLength | src/hashmaps/chaining.py:139-151 | the loop returns the total length divided by the number of non-empty chains, 0 when there are none, and otherwise a value between 1 and the longest chain |
| Chaining.ChainingMap.GetMaxChainLength | src/hashmaps/chaining.py:153-160 | the loop returns the longest chain's length: it bounds every chain and is attained |
| Cuckoo.EmptyTableWellFormed | src/cuckoo.py:33-37 | the fresh table is well formed |
| Cuckoo.Alternate | src/cuckoo.py:104-108 | the relocation target is always one of the evicted key's two candidate slots |
| Cuckoo.PairsStored | src/cuckoo.py:94-95 | a pair is among the table's pairs exactly when some Occupied slot holds it |
| Cuckoo.Displace | src/cuckoo.py:86-121 | the displacement cycle ends; when it places the last evicted pair it has taken between 1 and `MAX_DISPLACEMENTS` rounds |
| Cuckoo.DisplaceOccupancy | src/cuckoo.py:94-116 | the cycle never empties a slot and adds exactly one Occupied slot if it succeeds, none if it runs out |
| Cuckoo.DisplacePairs | src/cuckoo.py:86-126 | no pair is lost but the one dropped when the cycle runs out: pairs after plus the dropped one equal pairs before plus the new one |
| Cuckoo.DisplaceKeepsLayout | src/cuckoo.py:86-121 | every eviction keeps each key in one of its candidate slots and no key in two slots |
| Cuckoo.Holder | src/cuckoo.py:54-61 | a found holder is a candidate slot that is Occupied with the key |
| Cuckoo.InsertSpec | src/cuckoo.py:39-126 | insert reports no probes and at most `MAX_DISPLACEMENTS` displacements |
| Cuckoo.DisplaceResult | src/cuckoo.py:98-126 | a placed cycle reports its rounds as displacement; no probe is counted |
| Cuckoo.LookupSpec | src/cuckoo.py:128-154 | lookup checks only the two candidates (1 or 2 probes) and succeeds exactly when it returns a value |
| Cuckoo.LookupFindsStored | src/cuckoo.py:138-154 | in a well-formed table, lookup returns `value` if and only if some slot holds (key, value) |
| Cuckoo.NoHolderAbsent | src/cuckoo.py:54-61 | when neither candidate holds the key, no slot does |
| Cuckoo.InsertKeepsWellFormed | src/cuckoo.py:50-126 | inserting, including every eviction, keeps keys in candidate slots, each at most once, and `size` equal to Occupied slots plus failures |
| Cuckoo.InsertCounts | src/cuckoo.py:54-126 | `size` grows unless the key was present, `failedInserts` grows exactly on failure, occupancy grows exactly for a new key that was placed, and an update never displaces |
| Cuckoo.InsertPairs | src/cuckoo.py:86-126 | a successful insert adds its pair, replacing only pairs of the same key; a failed insert loses exactly one pair |
| Cuckoo.InsertStores | src/cuckoo.py:50-121 | after a successful insert some slot holds (key, value) |
| Cuckoo.InsertThenLookup | src/cuckoo.py:39-154 | after a successful insert the key maps to the new value and every other key to what it did before |
| Cuckoo.DeleteKeepsWellFormed | src/cuckoo.py:166-186 | delete keeps the layout and counter invariants |
| Cuckoo.DeleteThenLookup | src/cuckoo.py:166-186 | after delete the key is not found and every other key's lookup is unchanged |
| Cuckoo.DeleteRemovesPair | src/cuckoo.py:166-186 | a successful delete lowers `size` by one and removes exactly one (key, v) pair; a failed one changes nothing |
| Cuckoo.CuckooMap.constructor | src/cuckoo.py:33-37 | a fresh map is all Empty with both counters 0 |
| Cuckoo.CuckooMap.Insert | src/cuckoo.py:39-126 | the method leaves the array and counters as `InsertSpec` gives and keeps the invariants |
| Cuckoo.CuckooMap.Displacement | src/cuckoo.py:81-126 | the bounded `for` eviction loop leaves the array and counters as the value-level cycle `Displace` gives |
| Cuckoo.CuckooMap.Lookup | src/cuckoo.py:128-154 | the method returns the result and value of `LookupSpec` |
| Cuckoo.CuckooMap.Delete | src/cuckoo.py:156-186 | the method clears the first matching candidate as `DeleteSpec` gives and keeps the invariants |
| Cuckoo.CuckooMap.LoadFactor | src/cuckoo.py:188-190 | the load factor times the capacity is the Occupied slots plus the failed inserts, which is `size` |
| Cuckoo.CuckooMap.GetFailedInserts | src/cuckoo.py:192-194 | the failure counter is non-negative and equals `size` minus the Occupied slots |

## Left out

- Floating point: `load_factor`, `get_avg_probe_length` and `get_avg_chain_length` return Dafny `real`s, exact quotients of the integer numerators and denominators (`Counting.Mean`), not IEEE doubles.
- RobinHood.InsertSpec: requires some slot that is not Occupied. Under that requirement the loop always places or updates before wrapping around, so the full-table guard at `src/hashmaps/robin_hood.py:75-78` is not reached. The behaviour of insert into a completely full Robin Hood table is not modelled.
- RobinHood.RobinHoodMap.Insert: has the same requirement, for the same reason.
- RobinHood.LookupSpec and RobinHood.DeleteSpec: completeness (a key that is stored is found) is not stated, because the code as written does not have it. The comments at `src/hashmaps/robin_hood.py:106-107` and `:147` promise that a resident with a smaller dib means the key is absent. After a delete, though, an insert can fill the tombstone with a key whose dib is smaller than the offset a longer probe has already walked. The early exit then stops before a key stored further along (`RobinHoodTombstones.LookupMissesPresentKey`, see Findings). Completeness is proved for the corrected search instead (`RobinHoodTombstones.CorrectedLookupFindsPresentKey`), and for linear probing (`LinearProbing.LookupFindsPresentKey`).
- LinearProbing.DeleteThenLookup and RobinHood.DeleteThenLookup: stated only for tables where no key is in two slots, because both inserts can create duplicate keys once tombstones exist. Global key uniqueness is not claimed for either table as written. It is proved for the corrected inserts (`LinearProbing.CorrectedInsertKeepsUniqueKeys`, `RobinHoodTombstones.CorrectedInsertKeepsSound`).
- RobinHoodTombstones.LookupMissesPresentKey: takes its four keys as parameters. That 64-bit keys with these home slots exist (three with one home, one with the next) rests on `mix` reaching every residue modulo 2^20, which is not proved here.
- RobinHoodTombstones.CorrectedInsertSpec: when the key is absent it reports the probes of the insert loop alone, not those of the search that came first. The probe count of a corrected insert is a design choice, not something the source fixes.
- Chaining: each chain is a `seq<Node>` in its bucket rather than heap-linked `Node` objects. No node is ever shared and nothing else observes the links, so the `next` pointers and their aliasing are not modelled.
- Chaining.ChainingMap.GetChainLength: requires `0 <= index < capacity`. Python's negative indices, which count from the end of the bucket list, are not modelled.
- Stale data: the key and value a Python entry keeps after being cleared or tombstoned (for example `src/cuckoo.py:172`, `src/linear_probing.py:141`) are not modelled. Empty and Tombstone slots carry no data, and no operation reads those fields.
- `src/hashmaps/common.py` is not part of this model. The Robin Hood `Entry`/`State` it defines are reconstructed from their use in `src/hashmaps/robin_hood.py`: an entry is Empty, Tombstone, or Occupied with key, value and dib.
- `OpResult()`: the default constructor corresponds to the constant `Common.NO_RESULT` (`success = false`, `probe_count = 0`, `displacement = 0`), which every method starts from. It has no contract of its own.
- Common.Mix: each masked multiply is an integer product reduced by 2^64, not a fixed-width `bv64` operation. The result is the same as the source's, but no fixed-width arithmetic is involved.
- `src/experiments/`, `src/utils/` and `src/hashmaps/__init__.py`: the benchmark drivers, timing, random key generation, CSV reading and writing, and printing are not modelled. They only call the public operations.
- Concurrency: each table is single-owner and sequential, and the model has no concurrency.

## Findings

| source | as written | input that shows it | evidently intended | confidence | as-written member | corrected member |
|---|---|---|---|---|---|---|
| src/linear_probing.py:61-70 | insert takes the first Empty or Tombstone slot on the probe path without looking further for the key | any two different keys `a` and `key` with the same home slot, such as two in `[0, 2^20]` or `a = key + 2^64`: insert a, insert key, delete a, insert key, delete key — `key` is still found, with its first value | insert updates a key that is present anywhere on its probe path, and takes a free slot only when the key is absent, so that a delete really removes the key | high (proved about the model; not executed) | LinearProbing.DeleteLeavesStaleDuplicate | LinearProbing.CorrectedDeleteThenLookup |
| src/hashmaps/robin_hood.py:48-58 | insert takes the first Empty or Tombstone slot on the probe path, even when its key is stored further along | any two different keys `a` and `key` with the same home slot: insert a, insert key, delete a, insert key, delete key — lookup of `key` still returns its first value | insert updates a key stored anywhere on its path and takes a free slot only for a new key, so that a delete really removes the key | high (proved about the model; not executed) | RobinHoodTombstones.DeleteLeavesStaleDuplicate | RobinHoodTombstones.CorrectedDeleteThenLookup |
| src/hashmaps/robin_hood.py:105-108 | lookup (and delete, at lines 146-148) gives up at a resident whose dib is below the probe offset, which is sound only if no tombstone was refilled | keys `a`, `b`, `k` with home `h` and `m` with home `h + 1`: insert a, b, k, delete b, insert m — `k` is stored at `h + 2`, but lookup of `k` returns None and delete of `k` fails | lookup and delete find every stored key, as the comment at lines 106-107 claims | high (proved about the model; not executed) | RobinHoodTombstones.LookupMissesPresentKey | RobinHoodTombstones.CorrectedLookupFindsPresentKey |

`LinearProbing.DeleteLeavesStaleDuplicate` holds for any two different keys with one home slot. `Common.CollidingKeysInRange` proves by pigeonhole that such a pair exists among the keys `0..2^20`, well inside the 64-bit key range. `LinearProbing.StaleDuplicateExists` gives a second pair for every key, `key + 2^64`, which lies outside that range and collides only because `mix` reduces its input to 64 bits. Here is the sequence for linear probing:

1. With `a` deleted, its slot at the home position becomes a tombstone.
2. The second insert of `key` reuses that tombstone. It never reaches the copy of `key` one slot further on.
3. The table then holds `key` twice.
4. Deleting `key` tombstones only the first copy, and the lookup then finds the stale one.

`LinearProbing.CorrectedInsertSpec` searches for the key before it takes a free slot. The lemma `LinearProbing.CorrectedInsertKeepsUniqueKeys` proves that the corrected insert keeps "no key in two slots". With that invariant, `LinearProbing.CorrectedDeleteThenLookup` proves that a deleted key is gone.

Robin Hood's insert stops at the first non-Occupied slot in the same way (`src/hashmaps/robin_hood.py:48-58`). `RobinHoodTombstones.DeleteLeavesStaleDuplicate` traces the same sequence there, for any pair of colliding keys. The in-range pair from `Common.CollidingKeysInRange` applies to it too.

Robin Hood's early exit in lookup and delete relies on dibs never dropping along a run of Occupied slots. A tombstone refilled by an insert breaks that. `RobinHoodTombstones.LookupMissesPresentKey` traces such a case:

1. Keys `a`, `b` and `k` share the home slot `h`. Inserted in that order, they sit at `h`, `h + 1` and `h + 2` with dibs 0, 1 and 2.
2. Deleting `b` leaves a tombstone at `h + 1`.
3. Key `m`, whose home is `h + 1`, takes that tombstone with dib 0.
4. A lookup of `k` passes `a` at offset 0. At offset 1 it meets `m`, whose dib is 0. Since `1 > 0`, it returns None, although `k` is at `h + 2`.

The corrected operations in `RobinHoodTombstones` drop the early exit. Lookup and delete then stop only at an Empty slot, at the key, or after a full wrap, and insert runs that search before its loop.
- The invariant `Sound` holds for the empty table (`EmptyTableSound`). Besides exact counters and dibs, it says that every Occupied slot is reachable from its home without an Empty slot, and that no key is in two slots.
- The corrected insert and delete keep `Sound` (`CorrectedInsertKeepsSound`, `CorrectedDeleteKeepsSound`).
- Under `Sound`, the corrected lookup finds every stored key (`CorrectedLookupFindsPresentKey`). It returns the value just inserted (`CorrectedInsertThenLookup`). A key the corrected delete removed is gone (`CorrectedDeleteThenLookup`).
