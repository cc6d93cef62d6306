# gcache, modelled and proved

gcache is a header-only library of replacement caches. This project models its caches in Dafny and proves what
they are for: that one ghost cache scores every cache size of a spectrum exactly as separate LRU caches would, that
pinned keys stay, that tenants of a shared cache cannot hurt each other, and that the adaptive replacement cache
keeps its bounds. `dafny verify dfyconfig.toml` checks everything.

## How it is built

Each component comes twice. A module of functions says on values what an operation does, and a class does it on the
heap, with the pointers, arrays, counters and loops of the C++ code. The contract of each class method equates the
new abstract state with the function of the old one; the theorems are about the functions and about whole runs.

| library | values and theorems | heap |
|---|---|---|
| `node.h`, the circular lists of `lru_cache.h` | `Seqs` | `Nodes` |
| `table.h` | `Words` (32-bit words, powers of two) | `Table` |
| `lru_cache.h` | `LruSpec`, `LruTheorems`, `LruOrder`, `LruRefines`, `PlainLru` | `LruCache` |
| `ghost_cache.h` | `Buckets`, `GhostSpec`, `LazyStats`, `Distances`, `SamplingSpec` | `GhostCache`, `SampledCaches` |
| `ghost_kv_cache.h` | `CurveSpec`, `KvSpec` | `SampledCaches` |
| `shared_cache.h` | `SharedSpec`, `SharedRuns` | `SharedCache` |
| `arc_cache.h` | `ArcSpec`, `ArcRules`, `ArcRuns`, `ArcOverfill`, `ArcOrder` | `ArcCache` |

On the heap every list node carries a ghost field `home`, the dummy head of the list it was last linked into, and
every dummy head a ghost sequence `members`. So lists are disjoint because a node has one home, and a linking step
is framed field by field. `LruCache.LRUCache.Valid` is the ownership invariant: four well-formed circular lists over
the cache's own nodes, an abstract state that lists their keys and reference counts, a hash table that maps exactly
those keys to those nodes, and the two counters. Several caches may share one table: `Spec.Maps` speaks only about
keys that lead to nodes the cache owns.

The ghost caches and the shared cache also carry a ghost `history` of every call made so far, and their invariant says
that the present state is the one the history leads to. That is how a method such as `GetStat` can promise the scores of
a plain LRU cache outright, and how the theorems about runs apply to objects on the heap.

`PlainLru` is the reference: a list of keys, moved to the newest end on access and cut to the capacity.

## What was found

* **ARC, `arc_cache.h:95`.** The new target is an unsigned difference, so the clamp with `0u` does nothing, and a
  target smaller than the step wraps to a number far above the capacity. That alone is harmless
  (`ArcRuns.HarmlessWrapRun`). The cache exceeds its capacity exactly when a key of `B2` is hit while `T2` is empty and
  the target is zero (and the capacity below 2^32 - 1) or above the capacity plus one: `ArcSpec.StepKeepsInvIff` for one
  access, `ArcRuns.RunKeepsInvIff` for whole runs. No capacity up to 2^31 is safe: `ArcOverfill.EveryCapacityOverfills`
  gives a trace of at most 3c + 2 accesses for each. `ArcRuns.OverfullRun` does it in four for capacity one; two more,
  and the code calls `back()` on an empty list (`ArcRuns.EmptyBackRun`). `ArcRuns.ClampedRunKeepsInv` proves the bounds
  unconditionally for the signed difference the clamp was meant for, and `ArcOrder.ListsAgree` shows that the wrap only
  ever moves the border between resident and remembered keys.
* **ARC with a capacity of 2^31 or more.** `2*capacity_` wraps, but there are only 2^32 keys, so no list is ever due to
  be trimmed at such a capacity, and no access changes (`ArcSpec.DoublingIsHarmless`). The bounds hold at every positive
  capacity.
* **Stale statistics, `ghost_cache.h:94-115`.** `reset_stat` leaves the stored pairs in place and `get_stat` rebuilds
  them only when their sum differs from the access count. After a reset, once exactly as many accesses have been
  counted as at the last rebuild, a query returns the pairs from before the reset.
  `LazyStats.ExactIffNotFooled` shows that this is the only way to get a wrong answer below 2^32 accesses.
* **The closing assertion of `get_stat`** compares a 64-bit sum with a 32-bit counter. `LazyStats.AnswerOverRuns` gives
  the answer of every query after any history; from 2^32 accesses on there may be none. 2^32 - 1 hits and two misses
  are such a history (`LazyStats.AssertionFails`).
* **The curve of the key-value cache, `ghost_kv_cache.h:100`.** Below the smallest size the unsigned difference wraps
  and may still be a multiple of the tick; the assertion in `get_stat` then fails. `CurveSpec.CurveIff` says exactly
  when, from the constructor's arguments and the length of the list. `CurveSpec.FailingCurve` and
  `KvSpec.KvFailingCurve` name sizes the constructor accepts for which the very first key fails. For a tick that is a
  power of two, `min_size <= tick` rules it out.
* **Relocating from a tenant to itself** reports success for every slot and changes no capacity, but costs the oldest
  unpinned key if the tenant has no free slot, unless it has no unpinned key either (`SharedSpec.RelocateToSelf`).
* A comment in `ghost_kv_cache.h:17` offers `SampleShift = 0` for no sampling. The code then shifts a 32-bit word by
  32, which the language leaves undefined, so the model requires a shift strictly between 0 and 32.
* A comment in `table.h:30` asks for a size that is a power of two; the code rounds up any size. The model does too.

## Model

| member | source | states |
|---|---|---|
| PlainLru.Inclusion | include/gcache/lru_cache.h:498-515 | One access keeps the stack property: a smaller LRU cache holds the newest part of a larger one, in the same order |
| PlainLru.RunInclusion | include/gcache/lru_cache.h:430-451 | After any trace, the contents of a plain LRU cache of capacity c are the c most recent keys of any cache at least as large |
| PlainLru.HitIffNear | include/gcache/ghost_cache.h:44-46 | A key hits a cache of capacity c iff fewer than c other keys are newer |
| Buckets.BucketIsLeast | include/gcache/ghost_cache.h:44-46 | The size class of a distance is the least k whose cache, of size min + k * tick, still reaches that far |
| Buckets.BucketIffWithin | include/gcache/ghost_cache.h:44-46 | The size class of a distance is at most k iff the k-th cache reaches that far |
| Buckets.InsertIdxCounts | include/gcache/ghost_cache.h:268-270 | The index computed for an insertion is the size class of the distance to the oldest node of the grown list |
| Buckets.IndexOfSizeIsRight | include/gcache/ghost_cache.h:95-99 | For an admissible cache size the computed index is in range and is the index of exactly that size |
| GhostSpec.RunKeepsInv | include/gcache/ghost_cache.h:225-309 | In every reachable state the list is duplicate-free and fits, and the histogram sums to no more than the access count |
| GhostSpec.GhostMatchesPlain | include/gcache/ghost_cache.h:225-309 | For every trace of accesses in any mode, resets and queries, and every simulated size, the prefix sum of the histogram is the number of hits a plain LRU cache of that size scores alone, and the rest of the count its misses |
| GhostSpec.HitsMonotone | include/gcache/ghost_cache.h:302-309 | Hits grow with the cache size, and hits and misses add up alike for all sizes |
| LazyStats.ExactIffNotFooled | include/gcache/ghost_cache.h:94-115 | Knowing only the count at the last rebuild, the count now and whether a reset came between, an answer is sure to be exact iff not (reset since, equal counts, count positive) |
| LazyStats.FoolingTraceFools | include/gcache/ghost_cache.h:94-115 | For every positive count below 2^32 a trace whose query reports all hits although the true score is all misses |
| LazyStats.QueryIsPlainLru | include/gcache/ghost_cache.h:94-104 | Otherwise a query answers the hits and misses of a plain LRU cache of the size asked for |
| LazyStats.AnswerOverRuns | include/gcache/ghost_cache.h:94-115 | What every query answers after any history, however long: the plain cache's scores as last built if they add up and the access counts agree modulo 2^32, else its present scores if they add up, else none |
| LazyStats.AssertionHoldsIff | include/gcache/ghost_cache.h:100-103 | The closing assertion holds iff the plain cache's hits do not exceed its accesses modulo 2^32, now or, with an equal count, when last built; below 2^32 accesses it always holds |
| LazyStats.FailsAfterIff | include/gcache/ghost_cache.h:100-103 | After n hits and m misses without a query it fails, at every size, iff 0 < (n + m) mod 2^32 < n mod 2^32 |
| LazyStats.AssertionFails | include/gcache/ghost_cache.h:102 | It does fail after 2^32 - 1 hits and two misses |
| SamplingSpec.SampledRunIsSubtraceRun | include/gcache/ghost_cache.h:187-191 | A sampled run leaves the state of an unsampled run over the subtrace whose hashes start with SampleShift zero bits |
| SamplingSpec.SampledByShift | include/gcache/ghost_cache.h:189 | The shifted hash is zero iff the hash is below 2^(32 - SampleShift) |
| SamplingSpec.ScaleRoundsDown | include/gcache/ghost_cache.h:174-175 | Shifting a size right divides it by 2^SampleShift and rounds down |
| SamplingSpec.ScaledSizes | include/gcache/ghost_cache.h:173-178 | The i-th size of the scaled cache is the i-th advertised size shifted right, with nothing lost |
| SamplingSpec.SampledMatchesPlain | include/gcache/ghost_cache.h:171-218 | The scores kept for an advertised size are those of a plain LRU cache of that size shifted right, over the subtrace |
| SamplingSpec.SampledQueryIsPlain | include/gcache/ghost_cache.h:201-217 | A sampled query answers those scores unless its statistics are stale |
| SamplingSpec.RecoverRebuilds | include/gcache/ghost_cache.h:117-121 | Replaying the list of any run, oldest first and uncounted, into a fresh cache of any parameters rebuilds its newest part that fits, all statistics zero |
| Distances.InsertPushes | include/gcache/lru_cache.h:430-451 | Every access pushes the nodes nearer than the key's old place one step back, puts the key in front and leaves the rest; an insertion pushes the whole list |
| Distances.LagStart | include/gcache/ghost_cache.h:257-273 | Before the boundary loop the pushed nodes still carry the class of their old distance |
| Distances.LagStep | include/gcache/ghost_cache.h:274-279 | One round of the loop brings exactly the node on that boundary up to date |
| GhostCache.HitBoundary | include/gcache/ghost_cache.h:258-261 | After a hit the key's own class changes its boundary iff the key was on it, and then to its successor |
| GhostCache.MissBoundary | include/gcache/ghost_cache.h:262-273 | After an insertion the last class has a boundary iff the list just reached its size, and it is then the oldest node |
| GhostCache.BoundaryAdvances | include/gcache/ghost_cache.h:274-279 | Each boundary nearer than the key's old place moves to the next newer node and stays within the list |
| GhostCache.GhostCache.constructor | include/gcache/ghost_cache.h:68-84 | Establishes the invariant, with an empty history: one list within capacity, each node's class the least cache that holds it, each boundary the oldest node of its cache or null |
| GhostCache.GhostCache.FixHit | include/gcache/ghost_cache.h:258-261 | Reads the key's class off its node and hands its boundary on; the rest of the structure is the loop's to finish |
| GhostCache.GhostCache.FixMiss | include/gcache/ghost_cache.h:262-273 | Computes the class the list has grown into and sets its boundary exactly when that cache just became full |
| GhostCache.GhostCache.Advance | include/gcache/ghost_cache.h:274-279 | The loop leaves every boundary below the class where the new list wants it, and every passed node in its class |
| GhostCache.GhostCache.AccessImpl | include/gcache/ghost_cache.h:225-299 | One access keeps classes and boundaries exact and is, on list, histogram and count, the abstract access; the returned node holds the key and is the newest |
| GhostCache.GhostCache.BuildCachesStat | include/gcache/ghost_cache.h:302-309 | Stores for every size the prefix sum and its complement, in 32-bit arithmetic |
| GhostCache.GhostCache.GetStat | include/gcache/ghost_cache.h:94-104 | After any history, answers the plain LRU cache's scores as last built or as they are now, or fails its assertion, as `LazyStats.AnswerOverRuns` says; exactly that cache's hits and misses unless the stored pair can be mistaken for a current one. Rebuilds exactly when the stored pair does not add up |
| GhostCache.GhostCache.ResetStat | include/gcache/ghost_cache.h:112-115 | Zeroes histogram and count; list, boundaries and stored pairs stay |
| GhostCache.GhostCache.ForEachLru | include/gcache/ghost_cache.h:117-121 | Visits the keys of the list from the oldest to the newest |
| GhostCache.GhostCache.Recover | tests/test_ghost.cpp:136-146 | Replaying a checkpoint into a new cache on the heap reaches the state of the abstract replay, classes and boundaries included, with the replay as its history |
| SampledCaches.SampledGhostCache.constructor | include/gcache/ghost_cache.h:173-184 | A ghost cache over the scaled sizes, empty |
| SampledCaches.SampledGhostCache.Access | include/gcache/ghost_cache.h:187-191 | Changes the state only for keys whose hash is below 2^(32 - SampleShift), and then as an access of the scaled cache; every access enters the history |
| SampledCaches.SampledGhostCache.GetStat | include/gcache/ghost_cache.h:201-217 | After any history, answers for the size shifted right what a plain LRU cache of that size scores over the sampled part of the history, stale pairs excepted as above |
| SampledCaches.SampledGhostCache.ResetStat | include/gcache/ghost_cache.h:112-115 | Zeroes histogram and count of the scaled cache; its list and stored pairs stay |
| SampledCaches.SampledGhostCache.GetSizes | include/gcache/ghost_cache.h:193-199 | The advertised sizes are the constructor's arguments: shifting right and left again loses nothing |
| SampledCaches.SampledGhostKvCache.Access | include/gcache/ghost_kv_cache.h:39-45 | A key below 2^(32 - SampleShift) is an access and gives the key its latest size, which its node then carries; any other changes neither; both enter the history |
| SampledCaches.SampledGhostKvCache.GetStat | include/gcache/ghost_kv_cache.h:61-63 | After any history of pairs, answers for the count shifted right what a plain LRU cache of that count scores over the sampled keys, stale pairs excepted |
| SampledCaches.SampledGhostKvCache.ResetStat | include/gcache/ghost_kv_cache.h:65 | Resets the counters and leaves list, sizes and stored pairs |
| SampledCaches.SampledGhostKvCache.GetCacheStatCurve | include/gcache/ghost_kv_cache.h:93-105 | The traversal from the newest node, with its wrapped counters and its unsigned test, yields the abstract curve; after any history with trustworthy statistics, the curve of the plain LRU caches, if the sizes admit one |
| CurveSpec.NeverFiresEarlyIff | include/gcache/ghost_kv_cache.h:100 | The arithmetic of the test alone: it picks no size below the smallest one, whatever the list, iff that size is at most the distance from 2^32 down to the largest multiple of the tick below it |
| CurveSpec.FirstEarly | include/gcache/ghost_kv_cache.h:100 | Otherwise, the least size that it picks too early |
| CurveSpec.CurveIff | include/gcache/ghost_kv_cache.h:93-105 | With exact statistics there is a curve iff the smallest size is at most that distance or the list is shorter than the least size picked too early |
| CurveSpec.FailingCurve | include/gcache/ghost_kv_cache.h:93-105 | For tick 3, smallest size 2 and largest size 11 the first key already fails the assertion |
| CurveSpec.GapOfPowerOfTwo | include/gcache/ghost_kv_cache.h:100 | For a tick that is a power of two that distance is the tick |
| CurveSpec.CurveIsCorrect | include/gcache/ghost_kv_cache.h:93-105 | Under that condition the first n keys yield one point per size reached, in order |
| CurveSpec.CurveMatchesPlain | include/gcache/ghost_kv_cache.h:93-105 | For every trace there is a curve iff the condition holds, and then its i-th point has the count scaled up, the scaled total size of exactly the keys a plain LRU cache of that size holds, and that cache's hits and misses |
| KvSpec.ListedKeysHaveSizes | include/gcache/ghost_kv_cache.h:39-45 | Every key the cache still lists has been given a size |
| KvSpec.KvCurveMatchesPlain | include/gcache/ghost_kv_cache.h:39-105 | From the key-value trace to the curve: with trustworthy statistics there is a curve iff the sizes admit one, and every point has the count scaled up, the total of the latest sizes of exactly the sampled keys a plain LRU cache of that count would hold, all of which have one, and that cache's hits and misses |
| KvSpec.KvFailingCurve | include/gcache/ghost_kv_cache.h:93-105 | With five bits of sampling, constructor arguments (96, 64, 352) pass every assertion and the first sampled key has no curve |
| Table.MaskIsMod | include/gcache/table.h:58 | Masking with a power of two less one is the remainder |
| Table.BitCeilLeastPower | include/gcache/table.h:95 | The rounded length is the least power of two not below the size |
| Table.NodeTable.IndexIsRemainder | include/gcache/table.h:86 | The bucket of a hash is its remainder by the length, hence in range |
| Table.NodeTable.constructor | include/gcache/table.h:94-99 | An empty map over the rounded-up number of buckets |
| Table.NodeTable.FindPointer | include/gcache/table.h:85-91 | The walk ends at the slot that holds the key's node, or at the chain's trailing slot if the map lacks the key |
| Table.NodeTable.Lookup | include/gcache/table.h:65-68 | The node the map gives for the key, null if none |
| Table.NodeTable.Insert | include/gcache/table.h:53-61 | The map changes at the node's key only; chains stay acyclic, disjoint and in their buckets |
| Table.NodeTable.Remove | include/gcache/table.h:72-78 | Removal at the head, in the middle or at the tail takes exactly that key out of the map and returns its node |
| Nodes.ListRemove | include/gcache/lru_cache.h:545-548 | A node leaves its circular list, which stays well-formed in both directions and keeps its order |
| Nodes.ListAppend | include/gcache/lru_cache.h:551-558 | A node joins a circular list as its newest |
| LruCache.LRUCache.constructor | include/gcache/lru_cache.h:216-226 | Empty circular lists and no capacity (the code links the free list in `init` only) |
| LruCache.LRUCache.InitFrom | include/gcache/lru_cache.h:316-331 | The pool becomes the free list, in order |
| LruCache.LRUCache.Create | include/gcache/lru_cache.h:250-266 | A cache over a new pool and a table of its own, all slots free |
| LruCache.LRUCache.Locate | include/gcache/lru_cache.h:184-192 | A tabled node of the cache has one reference iff it is in the LRU list, and otherwise at least two and is in the in-use list |
| LruCache.LRUCache.AbsentIff | include/gcache/lru_cache.h:171-174 | The table leads from a key to a node of this cache iff one of its two live lists holds the key |
| LruCache.LRUCache.Facts | include/gcache/lru_cache.h:163-167 | Size counts the live nodes, and capacity the live and free ones |
| LruCache.LRUCache.SlotsOnce | include/gcache/lru_cache.h:163-197 | No node is in two lists or twice in one, and every node of the lists is owned |
| LruCache.LRUCache.PinnedHandle | include/gcache/lru_cache.h:184-192 | The table leads from a pinned key to its node, which has one reference more than the key has pins |
| LruCache.LRUCache.AllocNode | include/gcache/lru_cache.h:498-515 | Takes the oldest free node, else evicts exactly the least recently used unpinned one; null iff there is neither |
| LruCache.LRUCache.LruRefresh | include/gcache/lru_cache.h:562-570 | The node becomes the newest; the result is the node that takes its place, itself if it was the newest |
| LruCache.LRUCache.Ref | include/gcache/lru_cache.h:523-529 | One reference more; only the first moves the node to the in-use list |
| LruCache.LRUCache.Unref | include/gcache/lru_cache.h:532-542 | One reference less; only the last one moves the node back, as the newest |
| LruCache.LRUCache.LookupImpl | include/gcache/lru_cache.h:379-384 | Returns the key's node and pins or refreshes it; null iff the key is absent |
| LruCache.LRUCache.InsertImpl | include/gcache/lru_cache.h:342-369 | Refines the abstract insertion on lists and table; null iff the key is absent and nothing can be allocated; other caches' nodes in the table stay |
| LruCache.LRUCache.Refresh | include/gcache/lru_cache.h:430-451 | The unpinned insertion of a key that is not itself pinned, with the successor: null iff the key is new, else the node now at the key's old place |
| LruCache.LRUCache.Release | include/gcache/lru_cache.h:387-394 | Undoes one pin |
| LruCache.LRUCache.Pin | include/gcache/lru_cache.h:397-399 | Adds one pin |
| LruCache.LRUCache.Erase | include/gcache/lru_cache.h:454-469 | Succeeds iff the key is unpinned; the node leaves list and table for the erased list, capacity and size drop |
| LruCache.LRUCache.InstallImpl | include/gcache/lru_cache.h:479-494 | A new newest key in an erased node, or in a fresh one if there is none; capacity and size grow |
| LruCache.LRUCache.Preempt | include/gcache/lru_cache.h:403-411 | Gives away the slot an allocation would have used, and with it its key |
| LruCache.LRUCache.Assign | include/gcache/lru_cache.h:414-417 | A foreign node becomes the last free one |
| LruCache.LRUCache.ForEachLru | include/gcache/lru_cache.h:284-286 | Visits the unpinned keys from the oldest to the newest |
| LruRefines.AccessIsTouch | include/gcache/lru_cache.h:342-369 | Whatever is pinned, the unpinned keys behave as a plain LRU list in the slots the pins leave: same keys, same order, same victim |
| LruRefines.InsertIsTouch | include/gcache/lru_cache.h:430-451 | Without pins an insertion is one access of the plain LRU list: same keys, same order, same victim |
| LruTheorems.RunKeepsInv | include/gcache/lru_cache.h:163-197 | In every state reached by inserting, looking up, pinning, releasing, erasing, installing, giving slots away and receiving them, no key is held twice, reference counts fit the list, and no two places share a slot |
| LruTheorems.StepSlots | include/gcache/lru_cache.h:342-570 | No operation loses or duplicates a slot: giving away and receiving move exactly one, installing adds one when no erased slot is left, all others none |
| LruTheorems.StepPins | include/gcache/lru_cache.h:342-542 | An operation changes the pins of its own key only, by what its caller sees, and pinned keys keep their slots |
| LruTheorems.PinsAreBalanced | include/gcache/lru_cache.h:523-542 | After any run the pins of a key are those taken and not released |
| LruTheorems.PinnedKeyStays | include/gcache/lru_cache.h:342-542 | A key whose pins never balance to zero stays in the cache, in its slot, whatever else happens, slots given away and received included |
| LruTheorems.InsertCostsOldest | include/gcache/lru_cache.h:498-515 | Inserting an absent key costs nothing, or exactly the least recently used unpinned key, or does nothing |
| LruTheorems.LastReleaseIsNewest | include/gcache/lru_cache.h:532-542 | A key becomes evictable with its last release only, and is then last in line |
| LruTheorems.LookupKeys | include/gcache/lru_cache.h:379-426 | Looking up moves no key in or out, and between the lists only the key it pins |
| LruTheorems.EraseKeys | include/gcache/lru_cache.h:454-469 | Erasing removes the key if unpinned, and nothing else |
| LruTheorems.PreemptKeys | include/gcache/lru_cache.h:403-411 | Giving a slot away costs no key while one is free, else exactly the least recently used unpinned one |
| LruTheorems.StepCapacity | include/gcache/lru_cache.h:342-515 | Installing and receiving raise the capacity by one, erasing an unpinned key and giving a slot away lower it by one, nothing else changes it |
| LruOrder.InstallIsNewest | include/gcache/lru_cache.h:479-494 | An installed key becomes the newest, with one reference, in the oldest erased slot or a new one; all other entries, pins and free slots stay as they are |
| LruOrder.PinnedInsertKeepsOrder | include/gcache/lru_cache.h:342-369 | A pinned insertion of an absent key leaves the order of the unpinned keys alone; only their oldest goes, and only if no slot is free |
| LruOrder.StepOrder | include/gcache/lru_cache.h:342-570 | For all eight operations the list of unpinned keys afterwards, entry by entry: the others keep slot and order, the oldest goes exactly when a slot is needed and none is free, and the operation's own key is last exactly when it ends unpinned |
| LruOrder.RunOrder | include/gcache/lru_cache.h:342-570 | After any legal run, from any state, the unpinned keys stand in the order of their last use |
| LruOrder.VictimIsLeastRecent | include/gcache/lru_cache.h:498-515 | At any point of any run, what an operation evicts is the unpinned key unused for longest, and no other unpinned key goes |
| LruOrder.StepPlaces | include/gcache/lru_cache.h:342-570 | No operation moves a key to another slot: exactly the victim or the erased key leaves its slot, and exactly a key brought in enters one, the oldest free or erased one or the victim's |
| LruOrder.RunPlaces | include/gcache/lru_cache.h:342-570 | A key that is neither evicted nor erased along a run is still in its slot, pinned or not |
| LruOrder.StepReserves | include/gcache/lru_cache.h:403-515 | Free and erased slots are queues: which one an operation takes, and where a returned slot goes |
| SharedSpec.RunKeeps | include/gcache/shared_cache.h:151-292 | Over all interleavings of insert, lookup, pin, release, relocate, erase and install: no key with two tenants, no slot in two places |
| SharedSpec.PinnedKeyStays | include/gcache/shared_cache.h:202-292 | Over all interleavings, relocations included, a key whose pins never balance to zero stays with its tenant, in its slot, with the pins its users count |
| SharedSpec.StepTotal | include/gcache/shared_cache.h:258-292 | The sum of the tenants' capacities grows by one with each installation, shrinks by one with each successful erasure and is otherwise conserved |
| SharedSpec.RelocateMoves | include/gcache/shared_cache.h:258-273 | Between different tenants exactly min(asked, free + unpinned) slots move; the source loses exactly its oldest unpinned keys beyond its free slots; pins and all of the destination's keys stay |
| SharedSpec.RelocateToSelf | include/gcache/shared_cache.h:258-273 | From a tenant to itself: with neither a free slot nor an unpinned key nothing happens; otherwise every attempt succeeds, no capacity changes, and the oldest unpinned key is lost iff there was no free slot |
| SharedSpec.InsertIsolates | include/gcache/shared_cache.h:202-221 | Inserting for one tenant takes no key, slot or capacity from another; a key found elsewhere changes lists only if pinned |
| SharedRuns.TenantsAreIndependent | include/gcache/shared_cache.h:151-292 | After any interleaving each tenant is in the state its own cache reaches by the operations that concern it, all legal there; relocations enter as slots given away and received, in order |
| SharedRuns.TenantsKeepOrder | include/gcache/shared_cache.h:151-292 | After any interleaving the unpinned keys of each tenant stand in the order of their last use |
| SharedRuns.Undisturbed | include/gcache/shared_cache.h:151-292 | Whatever the others do and for however long, a tenant that is not named and whose keys are not touched is exactly as it was |
| SharedCache.SharedCache.constructor | include/gcache/shared_cache.h:151-168 | Tenants with their configured capacities, all free, over disjoint parts of one pool; the total is their sum; the history starts empty |
| SharedCache.SharedCache.HeldIff | include/gcache/shared_cache.h:231-240 | A key is in the table iff some tenant holds it, and the tag of its node names that tenant |
| SharedCache.SharedCache.InOrder | include/gcache/shared_cache.h:151-292 | The heap invariant, kept by every method, implies the abstract one: no key with two tenants |
| SharedCache.SharedCache.SlotsInOrder | include/gcache/shared_cache.h:151-292 | It also implies that no node is a slot in two places, of one tenant or of two |
| SharedCache.SharedCache.HandleStays | include/gcache/shared_cache.h:202-292 | From any moment at which a key is pinned, as long as its pins never balance to zero: the table leads from the key to the same node, tagged with the same tenant, with one reference more than its users have pins |
| SharedCache.SharedCache.Lookup | include/gcache/shared_cache.h:225-240 | Relinks within the list of the tenant that holds the key and enters the history; null iff no tenant does |
| SharedCache.SharedCache.Insert | include/gcache/shared_cache.h:202-221 | Is the abstract insertion on tenants, table and history; the node is tagged with the tenant it belongs to; null iff absent everywhere and the tenant is full of pins |
| SharedCache.SharedCache.Release | include/gcache/shared_cache.h:243-247 | Undoes one pin at the tenant the tag names |
| SharedCache.SharedCache.Pin | include/gcache/shared_cache.h:250-255 | Adds one pin at the tenant the tag names |
| SharedCache.SharedCache.Relocate | include/gcache/shared_cache.h:258-273 | Is the abstract relocation, also from a tenant to itself, on tenants, table and history, and returns the number of slots moved |
| SharedCache.SharedCache.Erase | include/gcache/shared_cache.h:276-281 | Succeeds iff the key is unpinned, and then shrinks tenant and total by one |
| SharedCache.SharedCache.Install | include/gcache/shared_cache.h:285-292 | Adds a slot with a new key to the tenant, in an erased node or one that was nobody's, tags it and grows the total by one |
| SharedCache.SharedCache.CapacityOf | include/gcache/shared_cache.h:180-183 | The tenant's live and free slots |
| SharedCache.SharedCache.SizeOf | include/gcache/shared_cache.h:186-189 | The tenant's live keys, never more than its capacity |
| ArcSpec.StepKeepsStructure | include/gcache/arc_cache.h:62-174 | At any capacity, every access the code defines keeps the four lists duplicate-free and disjoint and the ghost flags exact |
| ArcSpec.StepKeepsSound | include/gcache/arc_cache.h:62-174 | Whatever the target has become, at every positive 32-bit capacity, every access the code defines also keeps T1 + B1 within c and the total within 2c |
| ArcSpec.InvIsDefined | include/gcache/arc_cache.h:101-138 | At every positive 32-bit capacity: while the cache is within c, and full as soon as it remembers a key, no access takes an element from an empty list or divides where division is undefined |
| ArcSpec.StepKeepsInvIff | include/gcache/arc_cache.h:62-140 | At every positive 32-bit capacity: an access exceeds the capacity, and so breaks the invariant, iff it hits B2 while T2 is empty and the target is zero (and c below 2^32 - 1) or above c + 1 |
| ArcSpec.StructureMeans | include/gcache/arc_cache.h:146-147 | The invariant makes the four lists together duplicate-free |
| ArcSpec.OneEvictionPerMissWhenFull | include/gcache/arc_cache.h:84-136 | A miss on a full cache evicts exactly one key and leaves it full, unless it is the access that exceeds the capacity; no other access evicts |
| ArcSpec.DoublingIsHarmless | include/gcache/arc_cache.h:126-133 | With duplicate-free lists of 32-bit keys and a key in none of them, once they hold c keys the comparison with the wrapped `2*capacity_` succeeds iff the total is 2c, and from c = 2^31 on neither does |
| ArcSpec.ClampedKeepsInv | include/gcache/arc_cache.h:95 | With the signed difference invariant and target bound always survive and a full cache stays full; without a wrap the two caches agree |
| ArcRules.StepMovesTarget | include/gcache/arc_cache.h:86-95 | A hit in B1 raises the target by the ratio of B2 to B1, rounded down and at least one, up to c; a hit in B2 lowers it by the ratio of B1 to B2, adding 2^32 below zero, or stopping at zero for the signed difference; no other access changes it |
| ArcRules.ReplaceIs | include/gcache/arc_cache.h:150-174 | T1 gives up its oldest key iff it has one and is longer than the target, or as long on a hit in B2; otherwise T2 does, if it has one; the key becomes the newest remembered on its side |
| ArcRules.StepKeepsRule | include/gcache/arc_cache.h:62-174 | All four lists after every access the code defines, from the lists before and the target alone |
| ArcRules.RulesDecide | include/gcache/arc_cache.h:62-174 | Both rules together describe the access completely: an outcome follows them iff it has the target and lists the code reaches |
| ArcRules.RunFollowsRules | include/gcache/arc_cache.h:62-174 | Every access of a run that never exceeds its capacity follows the rules, at every positive 32-bit capacity |
| ArcRules.DefinedRunFollowsRules | include/gcache/arc_cache.h:62-174 | Up to capacity 2^30 every access of every run the code defines does, also past the capacity |
| ArcRuns.ClampedRunKeepsInv | include/gcache/arc_cache.h:62-140 | Hence every run of the clamped cache satisfies the invariant, with p <= c |
| ArcRuns.RunKeepsSound | include/gcache/arc_cache.h:62-140 | Every run that is defined throughout keeps the lists sound, at every positive 32-bit capacity |
| ArcRuns.RunKeepsInvIff | include/gcache/arc_cache.h:62-140 | A run at a positive 32-bit capacity stays within it throughout, and keeps the invariant throughout, iff none of its accesses meets the condition |
| ArcRuns.NeverOverfillsIsDefined | include/gcache/arc_cache.h:62-140 | Such a run is defined throughout |
| ArcRuns.OverfullRun | include/gcache/arc_cache.h:95 | Four accesses leave two resident keys in a cache of capacity one |
| ArcRuns.EmptyBackRun | include/gcache/arc_cache.h:131 | Two more, and the code takes the last element of an empty B2 |
| ArcRuns.HarmlessWrapRun | include/gcache/arc_cache.h:95 | Six accesses that wrap the target of a cache of capacity two and leave it within its capacity |
| ArcOverfill.EveryCapacityOverfills | include/gcache/arc_cache.h:62-140 | For every capacity c from 1 to 2^31 some trace of at most 3c + 1 accesses keeps the invariant throughout and is followed by one that exceeds the capacity |
| ArcRuns.Accounting | include/gcache/arc_cache.h:66-104 | Along every run that is defined throughout hits and misses add up to the accesses made |
| ArcOrder.StepLists | include/gcache/arc_cache.h:62-140 | T1 followed by B1, and T2 followed by B2, are each one LRU list: replacement and target never change them, a repeated key goes to the front of the second, a new one to the front of the first |
| ArcOrder.ClampedRunFollows | include/gcache/arc_cache.h:62-140 | After any trace both lists run from the latest used key to the one unused for longest, and the second holds only keys used at least twice |
| ArcOrder.ListsAgree | include/gcache/arc_cache.h:62-140 | Along every run that is defined throughout, wraps or not, both lists of the code as written are those of the clamped cache |
| ArcOrder.RunFollows | include/gcache/arc_cache.h:62-140 | So they too follow the trace |
| ArcCache.ArcCache.constructor | include/gcache/arc_cache.h:37 | For any 32-bit capacity, the empty cache with its lists apart; within the bounds if the capacity is positive |
| ArcCache.ArcCache.Access | include/gcache/arc_cache.h:62-140 | Every access the code defines, whatever the target and capacity, is the abstract step, keeps the lists apart and, with no more than 2^31 keys remembered, follows the rules for target and lists |
| ArcCache.ArcCache.Replace | include/gcache/arc_cache.h:150-174 | Refines the abstract replacement in any state |

## Left out

- Printing, `operator<<`, hit and miss rates as floating point, and the counters `stat_ev_t1` and `stat_ev_t2`, which nothing updates.
- The hash functions of `hash.h`: a hash is an arbitrary function of the key, and `std::string_view` keys of the key-value cache enter as their hashes.
- `ARC_mrc`, which only forwards each access to independent ARC caches, and `ARC_cache::rst_stat`.
- Destructors, copying, handle wrappers, and the ownership of `pool_` and `extra_pool_`: a node allocated by `install` simply joins the nodes its cache owns.
- The `init` overloads that call a function on every slot, and the remaining traversals (`for_each_mru`, `for_each_in_use`, the `until` variants); the traversal from the newest node is modelled inside the curve.
- What the code asserts or leaves undefined for its callers is a precondition: a stale handle, a double release or erase, installing a present key, inserting into a tenant without capacity, an unknown tenant.
- Capacities outside the ARC cache, reference counts, the table length and the sizes given for key-value pairs are unbounded integers; the constructor's assertions on sizes are read over integers too. The 32-bit counters of the ghost cache and the arithmetic of the curve and of the ARC target are modelled word for word.
- The counters of hits, misses and evictions in the ARC cache do not wrap.
- The metadata of a ghost node is one record with both fields of `GhostKvMeta`; the plain ghost cache ignores the size.
- `unref` has a branch for a count of zero, which its only caller rules out; it is not modelled.
- The bound that keeps sampling bits and table bits of a hash apart (`ghost_cache.h:181-182`) is a matter of speed; no result here needs it.
- ArcCache.ArcCache.Access: does not say what happens when the last element of an empty list is taken, or when the quotient of two sizes cast to signed words is undefined. The casts are modelled modulo 2^32.
- ArcSpec.StepKeepsInvIff: the bounds on the list sizes are for positive capacities; at zero the first access is undefined.
- ArcOverfill.EveryCapacityOverfills: stops at 2^31, because its traces need twice as many different 32-bit keys as the cache has places.
- SampledCaches.SampledGhostKvCache.GetCacheStatCurve: does not assume the condition under which there is a curve; a failing assertion of `get_stat` appears as no result.
- LruTheorems.RunKeepsInv: treats slots as values; that distinct nodes on the heap own disjoint lists is part of the class invariant instead.
