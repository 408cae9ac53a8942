# Verified models of four infrastructure crates

This project models, in Dafny, the state machines and data structures of a workspace of four crates, and proves
what they promise:

* `kv_store`: three eviction policies, a capacity-bounded store that relies on one of them, and the same store
  shared by threads under two locks;
* `gossip`: cluster membership by gossip, with a failure detector per peer;
* `consistent_hash`: a hash ring with virtual nodes;
* `snowflake_gen`: time-ordered 64-bit identifiers.

`dafny verify dfyconfig.toml` checks everything.

## How it is organized

**Eviction policies.** `Ledgers` says what a policy means: each tracked key has a frequency and a stamp, and the
victim is the key whose (frequency, stamp) is least. FIFO, LRU and LFU differ only in what an access writes down.
`Histories` derives that from the sequence of calls alone. `ArenaLists` has the theory of doubly linked lists in an
arena of slots; `LruPolicies` and `LfuPolicies` are classes with the fields of the source (arena, head and tail or
buckets and least frequency, index, free list) whose every method is proved to compute the ledger's operation. The
arena has exactly as many slots as keys were ever tracked at once.

**The sequential store.** `Stores` is the store as a value, `KvStores` the class that refines it. `StoreRuns` says
exactly which lookups hit, `StoreHistories` which key a full store gives up. `Inclusion` compares two runs: under LRU
more capacity never loses a hit. `InclusionLimits` says for exactly which capacities FIFO and LFU have this property.

**The concurrent store.** `ConcurrentStores` is a step machine: each operation is a thread, and each acquisition,
policy call, map update and release is a step of its own, except that a reader looks and lets go in one step, and so
does the recording of an access; no other thread could tell. So all interleavings of any number of operations are
covered. The policy of the machine is its ledger, whichever policy that is, and every change of the data is logged
with the operation that made it and why. `ConcurrentSteps` proves the invariant. `ConcurrentRuns` has what holds at
every point of a run: agreement of policy and data, an author for every change, and evictions of the right key.
`ConcurrentMoments` has linearizability: each operation acts at one state of the run between its call and its return.
`ConcurrentCalls` has what each operation tells the policy. `ConcurrentProgress` has freedom from deadlock and
termination, `ConcurrentCleanup` the one surprise (below).

**Gossip.** `Detectors` is the sliding window and phi, `PhiLaws` what phi is by the samples alone, `Memberships` the
table with its merge and its failure check, `MergeLaws` the algebra of merging and what every change of a table keeps,
`GossipNetworks` the protocol over a network that may lose, duplicate, delay and reorder messages, `GossipSpread` how
knowledge travels in it, `GossipClashes` a run in which two messages do not commute.

**Hash ring and identifiers.** `HashRings` treats the hash functions as arbitrary functions with possible collisions;
`RingHistories` says when the order of joining and leaving can be read off the ring. `Bits` and `Snowflakes` treat the
64-bit word explicitly and the clock as an arbitrary sequence of readings.

## Where the code decides

* The links of a node: `prev` points toward the head (kv_store/src/policy.rs:104 and 165).
* The documented designs with counters in ordered maps (kv_store/docs/INTERNAL_REFERENCE.md:20-21) are not what the
  code does; they are what the ledgers say, and the arenas are proved to compute it.
* A store of capacity 0 holds one key, so the bound is max(capacity, 1) throughout.
* A concurrent `get` that saw an expired entry removes the key later without looking again
  (kv_store/src/store.rs:206-214). That can remove a live entry: `LiveEntryCanVanish` gives the run and
  `CleanupRemovesLiveEntryIff` the exact condition. Linearizability of the answers holds all the same: such a `get`
  answers for the moment of its read, and its removal is on record in the log.
* A merge drops a claim that an unknown node is dead (gossip/src/lib.rs:104), so two messages do not always commute.
  `MessagesCommuteIff` gives the exact condition, `SentMessagesCommuteIff` that for messages really sent.
* The binary search of the ring may return any of several equal hashes. `LookupIsDeterminedIff` says when that
  matters to a lookup, `HistoryMattersIffCollision` when the order of joining matters to the ring.
* More capacity can lose a hit under FIFO and LFU. `InclusionHoldsIff` gives the exact condition on the capacities.
* A policy that is told of a tracked key as new is broken by that. The stores never do it, which is proved of both.
* After sleeping out a small clock drift the generator does not check the clock again (snowflake_gen/src/lib.rs:80-87).
  `NextIsLaterIffCaughtUp` and `IdentifiersIncreaseIff` give the exact condition, `ClockThatDoesNotCatchUpRepeats` a
  repeated identifier.

## Modelling conventions

The policy trait is a sum type of the three policy classes, whose methods carry the trait's contract. Each policy
class keeps its ledger, and the list or lists as sequences of slots, in ghost fields. Times are natural numbers and
every reading of a clock is a parameter. Some methods factor out steps that the source writes inline, so that each
proof is about few fields: `PlaceAtHead`, `MoveToHead` and `Release` in `LruPolicy`; `Place`, `Promote` and `Release`
in `LfuPolicy`; `EvictIfFull`, `Record`, `TellPolicy` and `Drop` in `KvStore`; `WalkFrom` in `HashRing`;
`MergeClaim` in `MembershipTable`; `SpinFrom` in `SnowflakeGenerator`.

## Model

| member | source | states |
|---|---|---|
| Histories.LedgerSummarizesHistory | kv_store/docs/INTERNAL_REFERENCE.md:20-21 | after any lawful sequence of calls the ledger of every tracked key is its last-use index and its use count since insertion, and `peak` is the largest number of keys tracked at once |
| Histories.EvictsByHistory | kv_store/src/policy.rs:14-31 | stated on the calls alone: the victim is the oldest insertion (FIFO), the oldest use (LRU), or the rarest use with the oldest first among equals (LFU); there is none only when nothing is tracked |
| Ledgers.VictimExists | kv_store/docs/INTERNAL_REFERENCE.md:20-21 | a nonempty valid ledger has a least (frequency, stamp) |
| Ledgers.EvictIs | kv_store/docs/INTERNAL_REFERENCE.md:20-21 | whatever key is least is the one `Evict` returns: the rule leaves no choice |
| Ledgers.InsertIsLawful | kv_store/src/policy.rs:14-31 | inserting an untracked key keeps the ledger valid and adds exactly that key |
| Ledgers.AccessIsLawful | kv_store/src/policy.rs:14-31 | an access keeps the ledger valid and the tracked keys as they were, even for an untracked key |
| Ledgers.DeleteIsLawful | kv_store/src/policy.rs:14-31 | a delete keeps the ledger valid and removes one key if it was tracked, none otherwise |
| Ledgers.EvictIsLawful | kv_store/src/policy.rs:14-31 | eviction removes exactly the key it returns, and returns none exactly when nothing is tracked |
| ArenaLists.LinkingFront | kv_store/src/policy.rs:153-176 | writing three links puts a floating slot at the head of a well-formed doubly linked list; keys and all slots outside the list stay as they were |
| ArenaLists.Unlinking | kv_store/src/policy.rs:186-203 | rewiring the neighbours of any member gives the well-formed list without that position |
| ArenaLists.EndsAfterUnlinking | kv_store/src/policy.rs:186-203 | the head and tail after unlinking can be read off the removed slot's own links, as the code does |
| ArenaLists.UnlinkingFrame | kv_store/src/policy.rs:186-203 | unlinking touches links only, and only inside the list |
| ArenaLists.Filling | kv_store/src/policy.rs:137-145 | a reserved slot comes from the free list or the end of the arena; index and free list stay exact |
| ArenaLists.SecondSlotIsLost | kv_store/src/policy.rs:207-223 | placing a key that already has a slot leaves a live slot that the index cannot find |
| ArenaLists.Freeing | kv_store/src/policy.rs:236-264 | emptying a slot and recycling it keeps the index exact and the free list duplicate-free |
| ArenaLists.WholeWalks | kv_store/src/policy.rs:98-122 | following `next` from the head for as many steps as there are slots yields the whole list, and `prev` from the tail its reverse |
| LruPolicies.InsertFaithful | kv_store/src/policy.rs:207-223 | LRU insertion on the arena computes the ledger's insertion and keeps structure and recency order |
| LruPolicies.RequeueFaithful | kv_store/src/policy.rs:225-234 | unlink then link at head computes the ledger's access |
| LruPolicies.RemoveFaithful | kv_store/src/policy.rs:236-264 | unlink, empty, recycle computes the ledger's delete |
| LruPolicies.TailIsVictim | kv_store/src/policy.rs:236-253 | the tail holds the key whose last use is oldest, and is missing only when nothing is tracked |
| LruPolicies.LruPolicy.constructor | kv_store/src/policy.rs:125-133 | a new policy refines the empty LRU ledger |
| LruPolicies.LruPolicy.Alloc | kv_store/src/policy.rs:137-145 | reuses the last free slot, else grows the arena by one |
| LruPolicies.LruPolicy.LinkAtHead | kv_store/src/policy.rs:153-176 | the whole new arena, head and tail |
| LruPolicies.LruPolicy.Unlink | kv_store/src/policy.rs:186-203 | the whole new arena, head and tail |
| LruPolicies.LruPolicy.OnInsert | kv_store/src/policy.rs:207-223 | refines the ledger's insertion and keeps structure, recency order and arena size, if and only if the key is not tracked yet |
| LruPolicies.LruPolicy.OnAccess | kv_store/src/policy.rs:225-234 | refines the ledger's access; an untracked key changes nothing but the time |
| LruPolicies.LruPolicy.Evict | kv_store/src/policy.rs:236-253 | returns and removes exactly the ledger's victim; no unwrap fails |
| LruPolicies.LruPolicy.OnDelete | kv_store/src/policy.rs:255-264 | refines the ledger's delete, for tracked and untracked keys |
| LruPolicies.LruPolicy.WalksAreRecency | kv_store/src/policy.rs:90-122 | walking head to tail meets exactly the tracked keys, latest use first; walking back meets the reverse |
| LfuBuckets.Fill | kv_store/src/policy.rs:421-429 | placing a new key in a reserved slot leaves every bucket list intact and that slot the only one in none |
| LfuBuckets.Link | kv_store/src/policy.rs:349-378 | linking the floating slot into the bucket of its frequency restores the partition of the arena into bucket lists and free list |
| LfuBuckets.Unlink | kv_store/src/policy.rs:382-406 | unlinking from one bucket leaves all other buckets in the shared arena linked, and drops a list that became empty |
| LfuBuckets.Retag | kv_store/src/policy.rs:446-456 | only a floating slot may change its frequency without breaking a bucket |
| LfuBuckets.Free | kv_store/src/policy.rs:462-505 | emptying the floating slot restores the partition |
| LfuPolicies.FrontBuckets | kv_store/src/policy.rs:349-378 | the head and tail recorded for every bucket are those of its list after linking |
| LfuPolicies.DropBuckets | kv_store/src/policy.rs:382-417 | the head and tail recorded for every bucket are those of its list after unlinking and cleanup; a bucket is cleaned up exactly when it lost its last member |
| LfuPolicies.InsertMinimum | kv_store/src/policy.rs:421-437 | frequency 1 is the least after any insertion |
| LfuPolicies.PromoteMinimum | kv_store/src/policy.rs:439-460 | when the last key leaves the least frequency the new least is exactly one more; otherwise it stays |
| LfuPolicies.ScanFindsMinimum | kv_store/src/policy.rs:475-481 | rescanning the bucket keys finds the least frequency, 0 when there is none |
| LfuPolicies.MinimumAfterDrop | kv_store/src/policy.rs:462-505 | rescanning only when the least bucket vanished is enough |
| LfuPolicies.InsertFaithful | kv_store/src/policy.rs:421-437 | LFU insertion computes the ledger's insertion |
| LfuPolicies.PromoteFaithful | kv_store/src/policy.rs:439-460 | unlink, count, link one bucket up computes the ledger's access |
| LfuPolicies.RemoveFaithful | kv_store/src/policy.rs:462-505 | unlink, empty, recycle computes the ledger's delete |
| LfuPolicies.FrequenciesArePositive | kv_store/src/policy.rs:421-460 | no bucket has frequency 0, so 0 can mean "empty" |
| LfuPolicies.TailIsVictim | kv_store/src/policy.rs:462-485 | the tail of the least bucket holds the least (frequency, stamp), and is missing only when nothing is tracked |
| LfuPolicies.LfuPolicy.constructor | kv_store/src/policy.rs:326-334 | a new policy refines the empty LFU ledger |
| LfuPolicies.LfuPolicy.Alloc | kv_store/src/policy.rs:336-344 | reuses the last free slot, else grows the arena by one |
| LfuPolicies.LfuPolicy.LinkAtHeadOfBucket | kv_store/src/policy.rs:349-378 | the whole new arena and buckets |
| LfuPolicies.LfuPolicy.UnlinkFromBucket | kv_store/src/policy.rs:382-406 | the whole new arena and buckets |
| LfuPolicies.LfuPolicy.CleanupBucket | kv_store/src/policy.rs:409-417 | removes the bucket and reports so, exactly when it exists without a head |
| LfuPolicies.LfuPolicy.OnInsert | kv_store/src/policy.rs:421-437 | refines the ledger's insertion and keeps structure, buckets, `min_freq` and arena size, if and only if the key is not tracked yet |
| LfuPolicies.LfuPolicy.OnAccess | kv_store/src/policy.rs:439-460 | refines the ledger's access |
| LfuPolicies.LfuPolicy.Evict | kv_store/src/policy.rs:462-485 | returns and removes exactly the key with the least (frequency, stamp); never stalls while a key is tracked |
| LfuPolicies.LfuPolicy.OnDelete | kv_store/src/policy.rs:487-505 | refines the ledger's delete, for tracked and untracked keys |
| LfuPolicies.LfuPolicy.WalksAreBuckets | kv_store/src/policy.rs:280-334 | walking a bucket meets exactly the keys of its frequency, the latest to reach it first; walking back meets the reverse |
| FifoPolicies.RemoveFaithful | kv_store/src/policy.rs:70-76 | taking the key out of the queue computes the ledger's delete |
| FifoPolicies.FrontIsVictim | kv_store/src/policy.rs:65-68 | the front of the queue is the oldest insertion |
| FifoPolicies.FifoPolicy.OnInsert | kv_store/src/policy.rs:54-57 | appends the key; refines the ledger's insertion if and only if the key is not queued yet |
| FifoPolicies.FifoPolicy.OnAccess | kv_store/src/policy.rs:59-63 | changes nothing in the queue |
| FifoPolicies.FifoPolicy.Evict | kv_store/src/policy.rs:65-68 | returns and removes the ledger's victim |
| FifoPolicies.FifoPolicy.OnDelete | kv_store/src/policy.rs:70-76 | refines the ledger's delete |
| KvStores.Policy.OnInsert | kv_store/src/policy.rs:14-31 | the trait's unwritten contract: an insertion keeps any policy meaningful if and only if the key is untracked, and then refines its ledger |
| KvStores.Policy.OnAccess | kv_store/src/policy.rs:14-31 | the trait's contract for an access |
| KvStores.Policy.Evict | kv_store/src/policy.rs:14-31 | the trait's contract for an eviction |
| KvStores.Policy.OnDelete | kv_store/src/policy.rs:14-31 | the trait's contract for a delete |
| KvStores.KvStore.constructor | kv_store/src/store.rs:42-48 | an empty store around any policy; it is in step exactly when the policy tracks nothing and never tracked more keys than the store may hold |
| KvStores.KvStore.Set | kv_store/src/store.rs:50-73 | makes room, tells the policy, stores the entry; the policy's duty not to be told of a tracked key as new is discharged here; keys and policy stay in step |
| KvStores.KvStore.Get | kv_store/src/store.rs:75-102 | expired: removed from both sides and not found; present: access recorded and value returned; absent: nothing changes |
| KvStores.KvStore.Delete | kv_store/src/store.rs:104-107 | removes the key from both sides |
| KvStores.KvStore.ArenaIsBounded | kv_store/src/policy.rs:137-145 | the LRU and LFU arenas never exceed max(capacity, 1) slots under a store |
| Stores.RoomKeepsStep | kv_store/src/store.rs:56-61 | eviction keeps both sides in step and leaves room for a new key within max(capacity, 1) |
| Stores.SetKeepsStep | kv_store/src/store.rs:50-73 | policy keys equal stored keys, size and peak at most max(capacity, 1), after a set; the keys are those after making room plus the one set |
| Stores.GetKeepsStep | kv_store/src/store.rs:75-102 | the same after a get |
| Stores.RemoveKeepsStep | kv_store/src/store.rs:104-107 | the same after a delete |
| StoreRuns.Run | kv_store/src/store.rs:42-107 | both sides are in step after every run from the empty store |
| StoreRuns.EveryKeyIsExplained | kv_store/src/store.rs:50-107 | a stored key holds its latest write, not deleted and not evicted; a key that is missing was never written, deleted, evicted, or had expired, so lazy cleanup removes nothing else |
| StoreRuns.LookupIsExact | kv_store/src/store.rs:75-102 | a get hits exactly when its key was set, not deleted or evicted since, and has not expired, and returns the latest value |
| StoreRuns.TimeoutsAreKept | kv_store/src/store.rs:50-102 | in times and time-outs alone: if the last set of a key, at time t0 and not deleted since, gave time-out ttl, a get at a later time returns its value if and only if the key was not evicted since and there was no time-out or the clock is at most t0 + ttl |
| StoreRuns.UnsetKeysMiss | kv_store/src/store.rs:75-107 | a get of a key that was never set, or deleted since, misses |
| StoreHistories.RunsReachPolicy | kv_store/src/store.rs:50-107 | in every run the policy is what the calls that the store makes of it add up to: an eviction and an insertion for a new key in a full store, an access for a set or hit, a delete for a delete or an expired lookup; no tracked key is ever inserted |
| StoreHistories.RunsAreRecorded | kv_store/src/store.rs:62-97 | in every run the policy's frequencies count the sets and lookups of a key since its insertion, and its stamps order keys as their last sets and lookups do |
| StoreHistories.FullStoreGivesUp | kv_store/src/store.rs:54-60 | a set gives up a key exactly when its own is new and the store full, and then just one: by the calls of the store the oldest insertion (FIFO), oldest set or lookup (LRU), or rarest with the oldest first (LFU) |
| Inclusion.LargerVictimGoesFirst | kv_store/src/store.rs:56-61 | when both stores evict, a shared key dropped by the larger is the smaller's victim too |
| Inclusion.RoomsStayWithin | kv_store/src/store.rs:56-61 | making room keeps the smaller LRU store inside the larger, in the same order of use, and never widens the surplus |
| Inclusion.SetKeepsInclusion | kv_store/src/store.rs:50-73 | a set in both keeps inclusion |
| Inclusion.GetKeepsInclusion | kv_store/src/store.rs:75-102 | a get in both keeps inclusion, expiry included, and a hit in the smaller is the same hit in the larger |
| Inclusion.RemoveKeepsInclusion | kv_store/src/store.rs:104-107 | a delete in both keeps inclusion |
| Inclusion.SmallerIsIncluded | kv_store/src/store.rs:50-107 | for any calls, with time-outs, and any c1 <= c2: every key of the smaller LRU store is in the larger, with the same entry and in the same order of use |
| Inclusion.MoreCapacityKeepsHits | kv_store/src/store.rs:75-102 | whatever the smaller LRU store answers the larger answers too |
| InclusionLimits.InclusionHoldsIff | kv_store/src/store.rs:50-107 | for any c1 <= c2: after all runs the smaller store's entries are in the larger under LRU always, under FIFO and LFU if and only if c1 = c2 or c1 <= 1 |
| InclusionLimits.SingleIsContained | kv_store/src/store.rs:50-107 | under every policy a store of a single key is part of any larger one, time-outs included |
| InclusionLimits.FifoDropsFirst | kv_store/src/policy.rs:54-68 | for every n: set 1 to n, set 1, set n + 1 makes the FIFO store of capacity n lose key 1 |
| InclusionLimits.FifoKeepsFirst | kv_store/src/policy.rs:54-68 | every smaller FIFO store of two keys or more keeps key 1 in that run |
| InclusionLimits.LfuDropsLast | kv_store/src/policy.rs:439-485 | for every n: set 1 to n, get n, set 1, get the others, set n + 1 makes the LFU store of capacity n lose key n |
| InclusionLimits.LfuKeepsLast | kv_store/src/policy.rs:439-485 | every smaller LFU store of two keys or more keeps key n in that run |
| ConcurrentSteps.LockedStep | kv_store/src/store.rs:188-261 | every step keeps: a lock is held by exactly the thread that is where it holds it, and writers exclude readers |
| ConcurrentSteps.BalancedStep | kv_store/src/store.rs:188-261 | every step keeps: tracked keys and stored keys agree outside a writer's body, differ in exactly the stated way inside it, and the limit holds throughout |
| ConcurrentSteps.LoggedStep | kv_store/src/store.rs:188-261 | every step keeps: the data are what the write-order log adds up to |
| ConcurrentSteps.TracedStep | kv_store/src/store.rs:188-261 | every step keeps: the policy is what its calls, in the order of its lock, make of it |
| ConcurrentSteps.SightedStep | kv_store/src/store.rs:188-223 | every step keeps: what a reader carries is what the log held for its key at some position, and a reading of the clock, both within its operation |
| ConcurrentSteps.PromptStep | kv_store/src/store.rs:236-241 | every step keeps: between asking the policy for a victim and removing it no other thread calls the policy or changes the data, and the policy tracked exactly the stored keys when it was asked |
| ConcurrentSteps.AttributedStep | kv_store/src/store.rs:188-261 | every step keeps: each change has the operation that made it, which makes it once |
| ConcurrentSteps.ToldStep | kv_store/src/store.rs:188-261 | every step keeps: each thread has told the policy exactly what its place says, under its own name |
| ConcurrentSteps.StepHolds | kv_store/src/store.rs:188-261 | the conjunction of the eight is inductive |
| ConcurrentRuns.RunHolds | kv_store/src/store.rs:173-179 | it holds at every point of every interleaving of any number of operations |
| ConcurrentRuns.PolicyAgreesWithData | kv_store/src/store.rs:188-261 | whenever the policy lock is free the tracked keys are the stored keys; the map never exceeds max(capacity, 1) |
| ConcurrentRuns.PolicyIsCalledLawfully | kv_store/src/store.rs:236-248 | a concurrent set tells the policy of a key as new only when it is untracked, and then there is room; the policy asked for a victim is a valid one |
| ConcurrentRuns.AnswersAreOnRecord | kv_store/src/store.rs:188-261 | each finished get returned the unexpired latest write before a position of the log within its operation; each finished set or delete has its own change on record there |
| ConcurrentMoments.SightsAreMoments | kv_store/src/store.rs:190-204 | what a reader carries it saw in one state of the run while it held the data lock: entry, log position and clock reading together |
| ConcurrentMoments.ChangesAreMoments | kv_store/src/store.rs:229-261 | every logged change was made in one step of the run |
| ConcurrentMoments.OperationsAreLinearizable | kv_store/src/store.rs:188-261 | each finished operation has one moment of the run, after its call and before its return, at which it took effect: a get, hit or miss, returned what a lookup returns in that very state, expiry included; a set or delete changed the data in that very step |
| ConcurrentMoments.MomentsRespectTime | kv_store/src/store.rs:188-261 | an operation that was over before another was called took effect before it |
| ConcurrentMoments.CallsAreMoments | kv_store/src/store.rs:229-230 | the time and log position of a call are those of the state in which it was made |
| ConcurrentRuns.EveryChangeHasAuthor | kv_store/src/store.rs:206-261 | each logged change was asked for: a store by a set of that key and value, a removal by a delete, by a lookup that saw the entry expired, or by a set whose new key found the store full |
| ConcurrentRuns.ChangesAreMadeOnce | kv_store/src/store.rs:206-261 | no operation makes two changes, but for a set that evicts before it stores; finished sets and deletes own different changes |
| ConcurrentRuns.EvictionsFollowCalls | kv_store/src/store.rs:236-241 | a concurrent eviction takes, of all keys stored at that moment, the oldest insertion (FIFO), oldest use (LRU) or rarest use (LFU) by the policy calls made so far in lock order |
| ConcurrentRuns.EvictionsKeepOrder | kv_store/src/store.rs:236-241 | evictions reach the data in the order in which the policy was asked, each for a call of its own |
| ConcurrentMoments.HitsComeFromLatestSet | kv_store/src/store.rs:188-223 | a value that a get returned was written by the latest set of its key in lock order: in the state that the get saw, no store, delete, eviction or cleanup of the key had come after it, and it had not expired |
| ConcurrentMoments.GetsKeepTimeouts | kv_store/src/store.rs:188-223 | in times and time-outs alone: a finished get looked at one state; if the last change of its key there was the store of a set called at t0 with time-out ttl, it returned that value if and only if there was no time-out or the clock was at most t0 + ttl; if there was no such store it returned none |
| ConcurrentCalls.OperationsTellPolicy | kv_store/src/store.rs:206-260 | what a finished operation has told the policy, each call once and in order: a hit its access, after it looked; a get that saw an expired entry a delete; any other get nothing; a delete its delete; a set, by the state in which its body began, an eviction exactly if its key was new and the store full, then an access if the key was stored, an insertion if new |
| ConcurrentCalls.EveryCallHasAuthor | kv_store/src/store.rs:206-260 | every call of the policy was made by an operation on that key that has reason to make it |
| ConcurrentRuns.LogTellsData | kv_store/src/store.rs:229-261 | the log read at those moments is the one that explains the map |
| ConcurrentProgress.NeverStuck | kv_store/src/store.rs:124-129 | policy-before-data rules out deadlock, and no policy call asks for more than holds: in every reachable state with an unfinished operation some thread can step |
| ConcurrentProgress.StepUsesWork | kv_store/src/store.rs:188-261 | every thread step decreases the work left |
| ConcurrentProgress.SchedulesAreBounded | kv_store/src/store.rs:188-261 | in any schedule, with the clock ticking at any point, the thread steps taken and the work left are together at most the work at the start |
| ConcurrentProgress.OperationsCanFinish | kv_store/src/store.rs:188-261 | from every reachable state all operations can finish |
| ConcurrentProgress.MaximalPathsFinish | kv_store/src/store.rs:188-261 | a schedule that cannot be continued has finished every operation |
| ConcurrentCleanup.CleanupRemovesLiveEntryIff | kv_store/src/store.rs:206-214 | the cleanup of an expired key removes a live entry exactly when the key was stored again since the read with a deadline not yet passed; if the key was left alone it removes the expired entry that was read |
| ConcurrentCleanup.LiveEntryCanVanish | kv_store/src/store.rs:206-214 | that case is reachable: three operations after which a lasting, completed set is gone without delete or eviction |
| Detectors.WindowIsLastGaps | gossip/src/detector.rs:30-41 | under any clock the window is the last at most 100 positive gaps between arrivals, and `last_arrival` the last one |
| Detectors.GapsTelescope | gossip/src/detector.rs:30-41 | under a non-decreasing clock the gaps add up to the time they span |
| Detectors.WindowSpansTime | gossip/src/detector.rs:30-41 | the window's sum is the time since some recorded arrival |
| Detectors.WindowStatistics | gossip/src/detector.rs:63-75 | the mean that phi uses is that time over the number of gaps, and the variance is never negative |
| Detectors.SilenceRaisesSuspicion | gossip/src/detector.rs:60-84 | for a nondecreasing distribution function and logarithm, a longer silence never lowers phi, and phi has the ceiling of the clamped probability |
| Detectors.PhiAccrualDetector.HeartbeatReceived | gossip/src/detector.rs:30-41 | the whole new window |
| Detectors.PhiAccrualDetector.ComputePhi | gossip/src/detector.rs:44-84 | the guards, loops and clamps compute the phi that the rows of PhiLaws describe by the samples |
| PhiLaws.VarianceFromMoments | gossip/src/detector.rs:63-74 | n n V = n Q - S S for n samples with sum S and sum of squares Q |
| PhiLaws.PhiIsFromSamples | gossip/src/detector.rs:60-84 | from five samples on, phi is minus the logarithm of the larger of 1e-100 and what the distribution leaves above z, where z d n = elapsed n - S and d is the larger of the root of the variance and a millisecond |
| PhiLaws.TrustWithoutEvidence | gossip/src/detector.rs:45-58 | phi is 0 below five samples, without an arrival, or before the last one |
| PhiLaws.PunctualPeer | gossip/src/detector.rs:76-83 | after equal gaps, a peer exactly on time stands at the middle of the distribution |
| Memberships.MembershipTable.constructor | gossip/src/lib.rs:58-75 | the table of a new node |
| Memberships.MembershipTable.UpdateOwnHeartbeat | gossip/src/lib.rs:81-86 | own counter up by one and alive; nothing else changes |
| Memberships.MembershipTable.MergeAll | gossip/src/lib.rs:88-135 | the loop over the claims, in whatever order, computes the order-free `Merge`, with `last_seen` and detectors |
| Memberships.MembershipTable.MergeClaim | gossip/src/lib.rs:91-133 | one claim: refute, discover, supersede, worsen or ignore |
| Memberships.MembershipTable.CheckForFailures | gossip/src/lib.rs:137-162 | the loop over the entries, in whatever order, computes the failure check |
| Memberships.MergeAt | gossip/src/lib.rs:88-135 | what a merge leaves for one node depends on that node's entry, detector and claim alone |
| Memberships.MergeOneMore | gossip/src/lib.rs:91-133 | merging claims one after the other is merging them all: iteration order does not matter |
| MergeLaws.MergeIsJoin | gossip/src/lib.rs:114-131 | for a known peer the result is the least upper bound of entry and claim by counter, then Alive < Suspected < Dead |
| MergeLaws.MergeTakesNews | gossip/src/lib.rs:100-132 | exactly which claims are taken whole (address, `last_seen`, detector arrival) and that any other changes at most the status; a dead stranger stays unknown |
| MergeLaws.MergeIsIdempotent | gossip/src/lib.rs:88-135 | hearing the same message again changes nothing at all, at any later time |
| MergeLaws.OrderMattersIffClash | gossip/src/lib.rs:91-133 | for one node, two claims give different counters or statuses in the two orders exactly when they clash |
| MergeLaws.MessagesCommuteIff | gossip/src/lib.rs:88-135 | two messages commute on every counter and status if and only if they clash on no node; the clashes are listed by cases a receiver can check |
| MergeLaws.ChangesGrow | gossip/src/lib.rs:81-162 | over any heartbeats, merges and checks (counter, status) never falls; a status becomes less severe only with a larger counter |
| MergeLaws.ChangesKeepOwnPlace | gossip/src/lib.rs:81-162 | no heartbeat, merge or check changes the address or the time of the own entry |
| MergeLaws.ChangeKeepsCoupled | gossip/src/lib.rs:88-162 | each such step keeps detectors for exactly the peers, with `last_arrival` equal to `last_seen` |
| MergeLaws.TablesStayCoupled | gossip/src/lib.rs:88-162 | so does every run from a new table, on whatever clock |
| MergeLaws.DetectorsReplayArrivals | gossip/src/lib.rs:100-123 | the detector of a peer is the replay of exactly the times at which the table heard news of that peer, and the entry was last seen at the last of them |
| MergeLaws.WindowsReachBack | gossip/src/lib.rs:88-162 | on a non-decreasing clock a peer's window holds the gaps between its latest news, and they add up to `last_seen` minus an earlier time at which its entry was updated |
| MergeLaws.ChecksDecide | gossip/src/lib.rs:137-162 | a check suspects exactly when phi is above the threshold, for a non-negative one only on five samples; declares dead exactly a suspect silent beyond the timeout; and never touches the own entry, the dead, or anything but status |
| GossipNetworks.StepKeepsInv | gossip/src/lib.rs:192-267 | every network step keeps: claims anywhere are modest, own entries alive |
| GossipNetworks.CounterAuthority | gossip/src/lib.rs:81-135 | in every reachable network no table or message holds a counter above the node's own; nobody knows more than 1 of an unstarted node; every node takes itself to be alive |
| GossipNetworks.MergingRefutes | gossip/src/lib.rs:92-98 | after a node merges a message that speaks against it, its counter is the least that is not below its own and exceeds the message's |
| GossipNetworks.AuthorityNeverFalls | gossip/src/lib.rs:81-135 | a node's counter never falls over a run |
| GossipNetworks.LaterSnapshotsRefute | gossip/src/lib.rs:223-239 | every later snapshot of that node shows it alive above the counter spoken against it |
| GossipNetworks.RefutationSpreads | gossip/docs/INTERNAL_REFERENCE.md:18-20 | whoever knows no more than what spoke against the node takes it to be alive again on merging such a snapshot |
| GossipNetworks.KnowledgeNeverFalls | gossip/src/lib.rs:81-162 | over any run what a node knows of another never falls, and no node is forgotten |
| GossipSpread.TicksTellAll | gossip/src/lib.rs:229-243 | a tick sends a message that speaks of exactly the nodes in the table and says of each its address, status and counter |
| GossipSpread.MessagesTellAll | gossip/src/lib.rs:229-243 | every message on the network is such a message of some tick |
| GossipSpread.KnowledgeSpreads | gossip/src/lib.rs:88-135 | what a node knew of another when it gossiped, whoever merges the message knows at least as well from then on, unless it did not know that node and is told it is dead |
| GossipSpread.OwnEntryIsExact | gossip/src/lib.rs:58-98 | in every reachable network a node's own entry is alive, at the address and time of its start, and its counter is 1 plus its ticks plus the messages that spoke against it at its current counter |
| GossipSpread.NodesStartAlone | gossip/src/lib.rs:58-75 | a new table holds its own node alone, alive at counter 1 |
| GossipSpread.SeedsIntroduce | gossip/src/lib.rs:257-267 | seeding enters an unknown node as alive at counter 1, seen now, and says nothing new of a known one |
| GossipSpread.TicksDecide | gossip/src/lib.rs:230-231 | in numbers: a tick suspects exactly at phi above 8, on five samples or more, and calls dead exactly a suspect last seen more than two seconds ago |
| GossipNetworks.SentMessagesCommuteIff | gossip/src/lib.rs:100-113 | two sent messages commute in a reachable network if and only if they do not clash about a node unknown to the receiver, one calling it dead and the other not with no larger counter |
| GossipNetworks.TablesComeFromChanges | gossip/src/lib.rs:192-267 | every table of a reachable network is a new table changed by its node's own steps, so all laws of changes hold of it |
| GossipNetworks.DetectorsHoldOwnHistory | gossip/src/lib.rs:205-267 | in every reachable network a peer's detector is the replay of the times at which the node heard news of that peer |
| GossipNetworks.NetworkWindowsReachBack | gossip/src/lib.rs:205-267 | in every reachable network, if the clock of a node never ran backward, its window for a peer holds the gaps between its latest news of the peer, and they add up to `last_seen` minus an earlier time of such news |
| GossipClashes.SentMessagesCanClash | gossip/src/lib.rs:100-113 | a run, for functions like the real ones, in which two sent messages do not commute: a watcher gives a node up, the node said it was alive, a third node hears both |
| HashRings.HashRing.constructor | consistent_hash/src/lib.rs:25-31 | an empty ring |
| HashRings.HashRing.AddNode | consistent_hash/src/lib.rs:36-47 | sorted, holding exactly the virtual nodes of the current nodes, each inserted where a search may land; without the new entries the ring is what it was; nothing changes for a present node |
| HashRings.HashRing.InsertVnode | consistent_hash/src/lib.rs:132-138 | inserts one entry where a search for its hash lands, so before an equal one; keeps the order and all other entries' order |
| HashRings.HashRing.RemoveNode | consistent_hash/src/lib.rs:50-56 | keeps exactly the entries of other nodes, so that adding an absent node and removing it restores the ring, collisions or not |
| HashRings.HashRing.GetNode | consistent_hash/src/lib.rs:61-79 | none exactly on an empty ring; otherwise the first node clockwise from where the search lands, and of the walk itself when no two nodes share the key's hash |
| HashRings.HashRing.GetReplicas | consistent_hash/src/lib.rs:85-114 | the first n distinct nodes clockwise, all nodes if there are fewer, each once |
| HashRings.HashRing.WalkFrom | consistent_hash/src/lib.rs:96-113 | stopping early returns what the full walk would |
| HashRings.RingIsDeterminedByNodes | consistent_hash/docs/INTERNAL_REFERENCE.md:9-11 | without collisions the ring depends on the current nodes alone, not on the history |
| HashRings.RingHoldsVnodes | consistent_hash/src/lib.rs:36-56 | the ring holds a node at a hash once for every virtual node index of the node with that hash, and nothing else |
| RingHistories.HistoryIsForgotten | consistent_hash/src/lib.rs:36-56 | any two sequences of joins and leaves that end with the same nodes end with the same ring, if no two of these share a hash |
| RingHistories.InsertionKeepsLast | consistent_hash/src/lib.rs:132-138 | the last of the entries with one hash stays the last, wherever the search lands |
| RingHistories.OrderOfJoiningShows | consistent_hash/src/lib.rs:36-47 | of two nodes that share a hash the ring tells which one joined an empty ring first, whoever joins later |
| RingHistories.HistoryMattersIffCollision | consistent_hash/src/lib.rs:36-56 | the ring is a function of the current nodes if and only if no two of them share the hash of a virtual node |
| HashRings.LookupIsDeterminedIff | consistent_hash/src/lib.rs:68-71 | the first node met is the same for every match that the search may return, if and only if no two nodes share the key's hash |
| HashRings.RotationWalks | consistent_hash/src/lib.rs:90-113 | if none do, every match leads to the same distinct nodes in the same order |
| HashRings.WalkWithoutNode | consistent_hash/src/lib.rs:50-56 | removing a node deletes it from every walk and changes nothing else |
| HashRings.OnlyOneReplicaMoves | consistent_hash/src/lib.rs:85-114 | between rings with and without x a replica list differs only if x is in it: the later ones move up and the next node joins |
| HashRings.OnlyOwnedKeysMove | consistent_hash/src/lib.rs:61-79 | a key changes its owner only to a node that joins or away from one that leaves |
| HashRings.ReplicasMoveOnlyWith | consistent_hash/src/lib.rs:85-114 | call to call: the replicas returned with x on the ring and those returned without it are the same unless x is among them; then the others move up and the next node joins |
| HashRings.OwnerMovesOnlyWith | consistent_hash/src/lib.rs:61-79 | call to call: the node returned with x on the ring is the one returned without it, unless it was x |
| HashRings.OwnerIsSuccessor | consistent_hash/src/lib.rs:61-79 | a key belongs to a node with the least hash from its own on, or with the least of all if every hash is below, collisions or not |
| Sequences.TakeOfMinus | consistent_hash/src/lib.rs:100-111 | taking an element out of a duplicate-free list changes its first n elements only if it is among them; then the others move up and the next one joins |
| Sequences.DedupOfFilter | consistent_hash/src/lib.rs:108-110 | dropping repetitions and dropping a node commute |
| Bits.OrOfDisjoint | snowflake_gen/src/lib.rs:114-116 | a shifted field or-ed with a low field is their sum |
| Bits.FieldsReadBack | snowflake_gen/src/lib.rs:114-116 | both fields can be read back by shift and mask |
| Bits.ThreeFieldsReadBack | snowflake_gen/src/lib.rs:114-116 | so can all three |
| Bits.ThreeFieldsOrder | snowflake_gen/src/lib.rs:114-116 | numbers with the same middle field are ordered by high, then low field, both ways |
| Snowflakes.AssembleIsSum | snowflake_gen/src/lib.rs:7-18 | in the 64-bit word no shift loses a bit, no field overlaps another, and the sign bit stays clear |
| Snowflakes.AssembleInNumbers | snowflake_gen/src/lib.rs:7-18 | an identifier is time times 4194304 plus machine times 4096 plus sequence, for 41, 10 and 12 bits |
| Snowflakes.PartsReadBack | snowflake_gen/src/lib.rs:114-116 | an identifier decodes to its time, machine and sequence |
| Snowflakes.OrderedByTime | snowflake_gen/src/lib.rs:114-116 | identifiers of one machine are ordered by time, then sequence |
| Snowflakes.SequenceRollsOver | snowflake_gen/src/lib.rs:89-95 | masking rolls the sequence over to 0 exactly at 4095 |
| Snowflakes.SnowflakeGenerator.constructor | snowflake_gen/src/lib.rs:44-56 | time and sequence start at 0 |
| Snowflakes.NewGenerator | snowflake_gen/src/lib.rs:44-56 | a machine identifier above 1023 is an error, any other makes a generator |
| Snowflakes.SnowflakeGenerator.SpinFrom | snowflake_gen/src/lib.rs:97-102 | finds the first reading that shows a later millisecond |
| Snowflakes.SnowflakeGenerator.GenerateId | snowflake_gen/src/lib.rs:67-119 | drift, sleep, sequence, spin and assembly against any clock; it fails exactly when the clock is more than 5 ms behind, reporting how far, and then leaves the state as it was; a clock still behind after the sleep starts its own millisecond at sequence 0 |
| Snowflakes.NextIsLaterIffCaughtUp | snowflake_gen/src/lib.rs:75-107 | a successful call issues a later identifier if and only if the reading after the sleep, if any, had caught up; if not, it issues that reading with sequence 0 |
| Snowflakes.IssuesTheNextPair | snowflake_gen/src/lib.rs:72-111 | a call fails exactly when the clock is more than 5 ms behind; otherwise, with a clock that caught up, it issues the least pair later than the last and not before the time it reached, so none is skipped |
| Snowflakes.IdentifiersIncrease | snowflake_gen/src/lib.rs:67-119 | over any calls for which it does, with failures in between, identifiers strictly increase |
| Snowflakes.IdentifiersIncreaseIff | snowflake_gen/src/lib.rs:67-119 | the identifiers of a new generator strictly increase if and only if the clock catches up after every sleep |
| Snowflakes.GeneratorsNeverCollide | snowflake_gen/src/lib.rs:114-116 | generators with different machine identifiers never issue the same one, whatever their clocks do |
| Snowflakes.ClockThatDoesNotCatchUpRepeats | snowflake_gen/src/lib.rs:78-81 | without the assumption an identifier is issued twice, for every machine, on readings that a clock can give |

## Left out

- KvStores.Policy.OnInsert: of a policy that is told of a tracked key as new it says only that the policy is broken, not what the broken policy does later; no store gets there.
- Detectors.PhiAccrualDetector.ComputePhi: works on reals, with square root, normal distribution function and logarithm as arbitrary functions; the polynomial that approximates the distribution function, and rounding, are not modelled.
- Snowflakes.SnowflakeGenerator.GenerateId: the spin loop ends only if the clock advances beyond the last millisecond, which is assumed; the mutex makes calls a sequence, so calls are modelled one after the other, and a time before the custom epoch is not modelled.
- HashRings.HashRing.GetNode: takes the key's hash instead of the key, because the hasher is outside the model; GetReplicas does the same.
- HashRings.BinarySearchByKey: stands for the standard library's search; callers use only its documented contract.
- Integer widths of counters, capacities and times in `kv_store` and `gossip`: unbounded here, and adding a time-out to an instant does not overflow.
- Lock poisoning, lock fairness, shared ownership and cloning of the concurrent store; a thread of the machine is one operation, so several calls by one thread are several threads of which later ones happen to start after earlier ones end.
- Sockets, serialization, tasks and their cancellation, and the random choice of peers: a sent snapshot may reach any node, any number of times or never.
- Node restarts under the same identifier: the source has no protection against them, and counter authority is stated without them.
- Eventual convergence of gossip and detection latency: they need fairness and timing that the code does not provide.
- Evenness of key distribution: it depends on the hash function.
- Performance, the `len` and `is_empty` style accessors, and the demonstration program of `snowflake_gen`.
