# Verification of the prefix-cache routing core

A Dafny 4.11 model, with proofs, of the part of the router that decides which worker a prompt goes to, of the mock engine whose cache that decision tries to predict, and of the processes that change the set of workers meanwhile.

- `Hashing.dfy`: the split of a prompt into blocks and the chain of block hashes. The hasher is a parameter; that it does not collide on the pairs it is given is a hypothesis (`CollisionFree`) wherever it is needed, never an axiom. `Collisions.dfy`: how far any hasher can meet it.
- `FlatIndex.dfy`, `PrefixIndex.dfy`: the index as one map, and the sharded index as a class whose methods are proved to have the flat map's effect.
- `History.dfy`: sequential runs of the index against the plain list of everything sent, and the ages along a chain.
- `Interleaving.dfy`, `Ages.dfy`, `Atomicity.dfy`: concurrent use with one step per shard lock, when times stay in order there, and the proof that every sequential history is one of the interleavings.
- `Prompts.dfy`, `Engine.dfy`, `Reuse.dfy`: canonical prompts on both sides, the engine's bounded cache, and the router's belief measured against it.
- `Selection.dfy`, `Router.dfy`, `RoundRobin.dfy`, `Inflight.dfy`: scoring, dispatch, balance and in-flight accounting.
- `Workers.dfy`, `Membership.dfy`, `Slots.dfy`, `Discovery.dfy`, `Churn.dfy`: the registry, whole runs of selection, polling, registration, reconciliation and eviction, the discovery and polling loops, and which workers have an in-flight slot.
- `ProxyStream.dfy`: the streaming proxy.
- `Sequences.dfy`, `Wrappers.dfy`: general facts and datatypes.

`dafny verify dfyconfig.toml` checks everything. Time is a natural number handed to each operation; weights and scores are reals. Router and engine share one block size, a parameter; by default it is 512 on both sides (`mocks/mock_vllm.py:57-58`).

## Main results

- **Belief is history.** Without evictions a match is exactly the largest number of leading blocks shared with a prompt sent to that worker since its last purge; with any evictions it is never more (`History.BeliefCountsSharedBlocks`, `History.BeliefNeverExceedsHistory`).
- **Concurrency.** In every interleaving of single-lock steps with purges and evictions a match is at most what had begun to be recorded by its end, and at least what was completely recorded before it began and of which nothing asked for was taken since (`Interleaving.ConcurrentMatchBounds`, `Interleaving.CompletedRecordingCounts`). Every sequential history is such an interleaving (`Atomicity.HistoryIsAnInterleaving`).
- **Belief against truth.** The forward walk over chained hashes and the engine's backward scan over whole-prefix digests agree while the engine evicts nothing, and the router never believes less than the engine holds (`Reuse.BeliefVersusTruth`).
- **Membership.** In every run nobody but a registered, healthy worker is credited with cache, and ids are never issued again (`Membership.GoodAlways`, `Membership.IdsNeverReturn`, `Membership.NoCreditUntilRouted`).
- **Selection.** The winner is the unique maximum on the index as it was before scoring touched it; repeats stay put; load never spreads further than the cache weight pays for (`Router.Router.PickBest`, `Selection.RepeatsStay`, `Selection.LoadStaysBalanced`).
- **Engine.** The cache is always the last `cap` distinct keys of the whole history (`Engine.CacheIsRecentHistory`).

## Where code and documentation differ

The model follows the code. Each difference is proved, with the exact condition under which the documented statement does hold.

- `crates/router-core/src/hashing.rs:20-24` says that blocks are shared exactly when hashes are. Shared blocks always give shared hashes; the converse for a pair of prompts holds exactly when the hasher separates the two blocks at the first place where the prompts part (`Hashing.SharedBlocksVersusSharedHashes`). Over all prompts some 64-bit hasher can keep it exactly when blocks have at most three characters; from four on every hasher fails on two one-block prompts (`Collisions.PromiseIff`, `Collisions.EveryHasherCollides`). The same lines say that a worker holds `k` blocks exactly when the match is at least `k`; after a sweep of the index a recorded block can match nothing (`History.SweepCanOrphanATail`), which a sweep can bring about precisely when the cap falls among equally old blocks of one chain (`History.SweepLeavesClosedIff`); a match is the most that was sent precisely when each block of it was recorded by an operation since which nothing took it (`History.BeliefIsHistoryIff`); and once the engine evicts, the match is only an upper bound, exact precisely when the engine has seen fewer than its capacity of distinct keys since that of the last block matched (`Reuse.BeliefVersusTruth`).
- `crates/router-core/src/inflight.rs:8-9` says that worker ids are dense. Discovery never reuses ids but grows the counters by the number of live workers, so newly drawn ids all have counters exactly when ids so far number at most the live workers plus sixteen, or counters were enough already (`Slots.NewIdsHaveSlotsIff`). With one pod replaced repeatedly the live worker has one exactly while configured workers and replacements number at most seventeen (`Churn.ChurnOutgrowsSlots`). Counts are exact precisely in runs where every acquire finds its slot (`Inflight.ExactIffSlotted`); a guard taken before the slot exists and dropped after it does wraps the counter (`Inflight.LateSlotUnderflows`), against the claim at `crates/router-core/src/inflight.rs:86-88`.
- `crates/router-server/src/discovery.rs:156-158` says that an event for one slice never removes another's workers. That holds of slices the stream has seen (`Discovery.OtherSlicesKeepUrls`). A restarted watch opens with an empty slice map and drops every worker discovered before (`Discovery.RestartForgetsWorkers`); a worker discovered earlier survives exactly when some slice seen by the stream advertises it after every event (`Discovery.SurvivesStreamIff`). A relist inside one stream keeps slices that have vanished: they leave exactly when they are named again without the URL (`Discovery.VanishedSliceStays`).
- `crates/router-server/src/api.rs:201-206` promises that a stream ends with the end marker even if the upstream omits it. The client always receives a marker, but it is added whenever no single chunk held a whole one, so a marker split between chunks arrives twice (`ProxyStream.MarkerAddedIff`, `ProxyStream.SplitMarkerSentTwice`). A marker the upstream sent early is not followed by another (`ProxyStream.EarlyMarkerIsNotLast`): the client's stream ends with the marker exactly when it was added or the upstream's own body ends with it (`ProxyStream.EndsWithMarkerIff`).
- `crates/router-core/src/prefix.rs:30` calls an entry's time the last time it was touched. Between racing recordings it can go back, since the clock is read before the loop (`Interleaving.RacingRecordsReverseAges`): exactly when a write or touch comes with a reading older than the entry (`Ages.TimesNeverGoBackIff`). With a clock that does not go back, that and the disorder of ages it causes need two calls writing a common block at once (`Ages.AgesOrderedWithoutOverlap`).
- `crates/router-core/src/router.rs:71-72` calls round robin strictly cyclic. Across the wrap of the 64-bit counter it is so exactly when the number of candidates divides the counter's range (`RoundRobin.RoundsSurviveWrapIff`).
- Selection reads the healthy workers, then records. Were a worker to go down between the two, it would be credited although down; recording keeps the membership invariant exactly when its worker is still healthy at that moment (`Membership.LateRecordBreaksCredit`).

## Model

| member | source | states |
|---|---|---|
| Hashing.ChainHash | crates/router-core/src/hashing.rs:33-49 | the loop computes the chain in which each block is hashed with its predecessor's hash, a block size of zero counting as one |
| Hashing.ChainAt | crates/router-core/src/hashing.rs:33-49 | one hash per block, the first of its block alone, each later one of its predecessor's hash and its block; a block size of zero counts as one |
| Hashing.ConcatOfBlocks | crates/router-core/src/hashing.rs:35-38 | splitting a prompt into blocks loses nothing |
| Hashing.BlocksOfConcat | crates/router-core/src/hashing.rs:35-38 | a list of full blocks with at most a shorter last one is what its concatenation splits into |
| Hashing.BlockCount | crates/router-core/src/hashing.rs:36 | the number of blocks is the prompt length divided by the block size, rounded up |
| Hashing.CommonBlocks | crates/router-core/src/hashing.rs:35-38 | leading blocks shared by two prompts: all when equal, otherwise the common characters divided by the block size, rounded down |
| Hashing.CollisionFreeIff | crates/router-core/src/hashing.rs:38-47 | being collision-free is exactly being injective on the (previous hash, block) pairs the hasher is given |
| Hashing.CollisionFreeIsCoherent | crates/router-core/src/hashing.rs:38-47 | without collisions on the pairs used, a block hash has one depth and one ancestry in every chain it occurs in |
| Hashing.SharedBlocksVersusSharedHashes | crates/router-core/src/hashing.rs:18-24 | shared blocks give shared hashes for any hasher; the converse holds for a pair of prompts exactly when the hasher separates the first differing blocks |
| Hashing.ChainArithmetic | crates/router-core/src/hashing.rs:18-49 | without collisions, equal leading hashes number the common characters divided by the block size (all blocks for equal prompts), and past the first difference no hash of one chain occurs anywhere in the other |
| Collisions.EveryHasherCollides | crates/router-core/src/hashing.rs:18-24 | with blocks of four or more characters every 64-bit hasher gives two different one-block prompts the same chain |
| Collisions.PromiseIff | crates/router-core/src/hashing.rs:18-24 | some 64-bit hasher keeps the documented invariant for all prompts exactly when blocks have at most three characters |
| FlatIndex.RecordAt | crates/router-core/src/prefix.rs:89-106 | recording leaves exactly the chain's blocks changed: the worker is added once and the time set |
| FlatIndex.RecordedEntry | crates/router-core/src/prefix.rs:97-104 | a recorded block's entry has its old workers in order, the worker once, at the end if new, and the time of the recording |
| FlatIndex.WalkIsLargest | crates/router-core/src/prefix.rs:115-127 | a match is the largest number of leading blocks all held by the worker |
| FlatIndex.TouchAt | crates/router-core/src/prefix.rs:129-140 | touching changes the times of exactly the given blocks that are present, and nothing else |
| FlatIndex.MatchAt | crates/router-core/src/prefix.rs:115-142 | a match sets the times of exactly the blocks reached from the front of the chain through blocks the worker holds, and changes nothing else |
| FlatIndex.ExpireAt | crates/router-core/src/prefix.rs:193 | an entry stays, unchanged, up to and including the TTL after its last touch, and is gone from then on |
| FlatIndex.RecordedExpires | crates/router-core/src/prefix.rs:89-106 | a recorded block outlives its recording by exactly the TTL |
| FlatIndex.MatchedExpires | crates/router-core/src/prefix.rs:115-142 | a matched block outlives the match by exactly the TTL, one beyond the match its last touch |
| FlatIndex.WalkAfterRecord | crates/router-core/src/prefix.rs:89-142 | after recording, its worker matches the whole chain, no match of that worker shrinks, and nobody else's changes |
| FlatIndex.PurgeAt | crates/router-core/src/prefix.rs:144-158 | a purge takes exactly the purged workers' credit away |
| FlatIndex.PurgedEntries | crates/router-core/src/prefix.rs:147-158 | a purge leaves exactly the entries with another worker, at their old times |
| FlatIndex.PurgeTwice | crates/router-core/src/prefix.rs:147-158 | purging workers in turn is purging them together |
| PrefixIndex.MaskIsRemainder | crates/router-core/src/prefix.rs:9-17 | for a power of two, the mask is the remainder, so every shard is reachable |
| PrefixIndex.SlotIsRemainder | crates/router-core/src/prefix.rs:82-85 | the shard of a hash is its remainder, in the index as it is built its last six bits |
| PrefixIndex.ShardSizesAddUp | crates/router-core/src/prefix.rs:160-172 | shard sizes add up to the number of distinct blocks, whatever the shard count |
| PrefixIndex.PrefixIndex.constructor | crates/router-core/src/prefix.rs:70-80 | any positive number of empty shards represents the empty map |
| PrefixIndex.PrefixIndex.RecordBlock | crates/router-core/src/prefix.rs:91-105 | one turn of the loop writes that block's entry and keeps every key in its own shard, with distinct and at least one worker |
| PrefixIndex.PrefixIndex.Record | crates/router-core/src/prefix.rs:89-106 | recording has the flat map's effect |
| PrefixIndex.PrefixIndex.ReadPass | crates/router-core/src/prefix.rs:116-127 | the hashes collected are the matched prefix of the chain |
| PrefixIndex.PrefixIndex.LongestMatch | crates/router-core/src/prefix.rs:115-142 | the result is the walk on the index as it was, and the matched prefix is touched |
| PrefixIndex.PrefixIndex.RemoveWorker | crates/router-core/src/prefix.rs:147-158 | all shards together are purged of the worker, entries left without workers dropped |
| PrefixIndex.PrefixIndex.Len | crates/router-core/src/prefix.rs:161-172 | the number of distinct blocks |
| PrefixIndex.PrefixIndex.IsEmpty | crates/router-core/src/prefix.rs:175-177 | true exactly of the empty map |
| PrefixIndex.PrefixIndex.ExpirePass | crates/router-core/src/prefix.rs:185-195 | exactly the entries touched no longer than the TTL ago stay, unchanged, and the count is the difference in size |
| PrefixIndex.PrefixIndex.OldestRows | crates/router-core/src/prefix.rs:206-217 | the sorted listing names every entry once, and its first overflow rows are a legitimate choice of oldest entries, ties in any order |
| PrefixIndex.PrefixIndex.SweepToCap | crates/router-core/src/prefix.rs:197-234 | the smaller of size and cap is left: exactly the overflow is removed, no removed entry newer than a survivor, survivors unchanged |
| PrefixIndex.PrefixIndex.Evict | crates/router-core/src/prefix.rs:184-235 | expiry then a legitimate sweep, leaving the smaller of the unexpired count and the cap; no survivor was last touched longer than the TTL ago, exactly the entries that were count as expired, and the rest of those gone as swept |
| History.CreditIsSound | crates/router-core/src/prefix.rs:89-158 | every credited block occurs in something sent to that worker since its last purge, in every run with evictions |
| History.CreditIsComplete | crates/router-core/src/prefix.rs:89-158 | without evictions every block of everything sent since the last purge is credited |
| History.LiveIff | crates/router-core/src/prefix.rs:89-158 | what counts as sent to a worker is what was recorded for it and not followed by its purge |
| History.LegalIff | crates/router-core/src/prefix.rs:89-235 | the runs considered are all those whose clock does not go back and whose sweeps choose as a sweep may |
| History.CreditIff | crates/router-core/src/prefix.rs:89-235 | in every run a block is credited to a worker exactly when some recording brought it and no purge of the worker, expiry or sweep since took it |
| History.BeliefNeverExceedsHistory | crates/router-core/src/prefix.rs:89-158 | with any evictions, holes included, a match never exceeds the best prefix shared with something sent since the last purge |
| History.BeliefIsHistory | crates/router-core/src/prefix.rs:89-158 | without evictions a match is exactly that best prefix |
| History.BeliefIsHistoryIff | crates/router-core/src/prefix.rs:89-235 | with evictions a match equals that best prefix exactly when each block of it was recorded for the worker by an operation since which no purge, expiry or sweep took it |
| History.BeliefCountsSharedBlocks | crates/router-core/src/hashing.rs:18-24 | the same in blocks of the prompts themselves |
| History.AgesOrderedAlways | crates/router-core/src/prefix.rs:89-142 | in every reachable state a block's ancestors, when present, are at least as recent as it |
| History.EvictionCutsFromTheEnd | crates/router-core/src/prefix.rs:184-235 | expiry never takes an ancestor and leaves its descendant, and the sweep does so only on equal times |
| History.ClosedWithoutSweep | crates/router-core/src/prefix.rs:184-235 | in runs whose sweeps remove nothing each worker's blocks are closed under ancestors |
| History.ForwardIsBackward | crates/router-core/src/prefix.rs:108-127 | where blocks are closed, walking forward to the first miss and scanning backward to the last hit agree |
| History.SweepCanOrphanATail | crates/router-core/src/prefix.rs:206-230 | the sweep may take a chain's head and keep its tail, which then matches nothing |
| History.SweepLeavesClosedIff | crates/router-core/src/prefix.rs:197-230 | every choice a sweep may make leaves blocks closed under ancestors exactly when the cap does not fall among equally old entries of which one is the ancestor of another that a worker holds |
| Interleaving.SoundAlways | crates/router-core/src/prefix.rs:82-158 | in every interleaving, everything credited or already read by a match belongs to a recording that has begun |
| Interleaving.EnabledIsLocal | crates/router-core/src/prefix.rs:9-17 | what a thread can do next depends on nothing but its own call, so no interleaving is left out |
| Interleaving.NobodyWaits | crates/router-core/src/prefix.rs:9-17 | a thread can always go on, since no lock is held while taking another |
| Interleaving.StartedIff | crates/router-core/src/prefix.rs:89-91 | the log of recordings begun holds exactly those |
| Interleaving.KeptSinceIff | crates/router-core/src/prefix.rs:89-158 | nothing was taken since a position exactly when no single step from there on took it |
| Interleaving.KeptFrom | crates/router-core/src/prefix.rs:89-158 | if no step from a point on took any of the asked-for blocks from the worker, all it had then of them it still has |
| Interleaving.RecordingDone | crates/router-core/src/prefix.rs:89-106 | a recording during which none of the asked-for blocks was taken from its worker leaves that worker all of its own among them |
| Interleaving.MatchInProgress | crates/router-core/src/prefix.rs:115-142 | from start to return a match keeps its arguments, and its result covers the walk on the index it began with if nothing asked for was taken meanwhile |
| Interleaving.ConcurrentMatchBounds | crates/router-core/src/prefix.rs:89-158 | a concurrent match is at most the best prefix shared with a recording begun by then, and at least the walk on the index it began with if meanwhile none of the asked-for blocks was taken from the worker |
| Interleaving.CompletedRecordingCounts | crates/router-core/src/prefix.rs:89-142 | a match is at least the prefix shared with any recording that returned before it began and since whose start none of the asked-for blocks was taken from the worker, whatever else was evicted or purged |
| Interleaving.ConcurrentPurgeClears | crates/router-core/src/prefix.rs:147-158 | a purge not raced by a recording of its worker leaves that worker no credit when it returns, whatever other threads do |
| Interleaving.RacingRecordsReverseAges | crates/router-core/src/prefix.rs:89-105 | two racing recordings can leave a chain's head older than its tail, and an expiry then takes the head alone |
| Ages.TimeGoesBackIff | crates/router-core/src/prefix.rs:28-30 | a step sets an entry's time back exactly when it writes or touches that entry with a reading older than it |
| Ages.TimesNeverGoBackIff | crates/router-core/src/prefix.rs:28-30 | over a run no entry's time goes back exactly when no write or touch came with a reading older than the entry it overwrote |
| Ages.AgesOrderedWithoutOverlap | crates/router-core/src/prefix.rs:89-142 | with a clock that does not go back and no two calls writing a common block at once, ages stay ordered along every chain and no time goes back, in every interleaving with other calls, purges and evictions |
| Atomicity.UninterruptedRecord | crates/router-core/src/prefix.rs:89-106 | the single-lock steps of an undisturbed recording add up to the whole operation |
| Atomicity.UninterruptedMatch | crates/router-core/src/prefix.rs:115-142 | likewise the read and touch passes of a match |
| Atomicity.UninterruptedPurge | crates/router-core/src/prefix.rs:147-158 | likewise the shard-by-shard purge |
| Atomicity.UninterruptedEvict | crates/router-core/src/prefix.rs:184-230 | likewise expiry shard by shard and the sweep victim by victim |
| Atomicity.WellFormedAlways | crates/router-core/src/prefix.rs:101-103 | in every state of every interleaving each entry has workers, and none twice |
| Atomicity.HistoryIsAnInterleaving | crates/router-core/src/prefix.rs:82-235 | every sequential history is the outcome of a possible run of single-lock steps, for any shard count |
| Prompts.CanonicalPrompt | crates/router-core/src/request.rs:49-60 | the buffer ends up as one `role: content` line per message, joined by newlines |
| Prompts.CanonicalExtends | crates/router-core/src/request.rs:41-60 | a longer conversation keeps the earlier prompt as a prefix |
| Prompts.BothSidesAgree | mocks/mock_vllm.py:83-90 | router and engine serialise every request the router accepts to the same text |
| Prompts.NoTextNoTrace | mocks/mock_vllm.py:86-90 | on the engine's side a message whose content is not text leaves no trace, wherever it stands |
| Prompts.NoRoleIsEmpty | mocks/mock_vllm.py:87 | and one without a role has the empty one |
| Engine.BlockPrefixHashes | mocks/mock_vllm.py:93-101 | the loop over one running hasher gives the digest of every whole prefix that ends at a block |
| Engine.Scan | mocks/mock_vllm.py:107-111 | one past the last position whose key is cached, zero if none |
| Engine.MockEngine.RecordAndMatch | mocks/mock_vllm.py:104-117 | the result is the scan of the cache as it was; all keys move to the young end and the oldest go until the cap holds |
| Engine.CacheIsRecentHistory | mocks/mock_vllm.py:104-117 | after any requests the cache is exactly the last cap distinct keys of the whole history in order of last access |
| Engine.RefreshAllKeepsEnough | mocks/mock_vllm.py:112-116 | having forgotten old keys early makes no difference to the last cap keys |
| Engine.CachedIff | mocks/mock_vllm.py:112-116 | a key is cached exactly when it was used and fewer than cap distinct keys were used since |
| Engine.ImmediateRepeat | mocks/mock_vllm.py:104-117 | a prompt repeated at once matches all its blocks exactly when the cap is at least one |
| Reuse.SharedDigestSharedBlocks | mocks/mock_vllm.py:93-101 | without collisions one shared whole-prefix digest means equal depth and equal blocks up to it |
| Reuse.DigestCollisionFreeIff | mocks/mock_vllm.py:93-101 | being collision-free is exactly being injective on the prompts' beginnings that end with a block |
| Reuse.EngineWithinHistory | mocks/mock_vllm.py:93-117 | the engine matches at most the blocks shared with some earlier request |
| Reuse.EngineCoversHistory | mocks/mock_vllm.py:93-117 | until it has evicted, the engine matches at least the blocks shared with any earlier request |
| Reuse.BeliefVersusTruth | mocks/mock_vllm.py:93-117 | for a worker fed only by a router that neither evicts nor purges it, belief is never below what the engine finds, equal while the engine has evicted nothing, and otherwise equal exactly when the requests used fewer than cap distinct keys since the last block believed |
| Reuse.ContinuationReusesBlocks | crates/router-core/src/router.rs:141-194 | a continuation of a conversation routed to a worker matches at least the full blocks of the earlier prompt there while nothing is evicted |
| Selection.CompareIsTotalOrder | crates/router-core/src/router.rs:38-51 | on finite scores the comparison is a strict total order in which only identical candidates are equal |
| Selection.ScoreLaw | crates/router-core/src/router.rs:252-256 | a score is zero for nothing matched and nothing in flight, rises by the cache weight per block and falls by the load weight per request |
| Selection.WinsIff | crates/router-core/src/router.rs:38-51 | a candidate wins exactly when, against every other, its surplus of matched blocks is worth more than its surplus of load, or the same and it has fewer in flight, or as many and the lower id |
| Selection.NoScoreNoOrder | crates/router-core/src/router.rs:40-45 | with a score that compares equal to everything the comparison can go in a circle |
| Selection.WinnerUnique | crates/router-core/src/router.rs:232-250 | at most one candidate beats all others |
| Selection.WinnerSeesHoldersOnly | crates/router-core/src/router.rs:232-256 | who wins depends on who holds what and not on when it was touched |
| Selection.WinnerWinsAgain | crates/router-core/src/router.rs:178-191 | with a non-negative cache weight a winner wins the repeat, then with a full match |
| Selection.RepeatsStay | crates/router-core/src/router.rs:178-191 | any number of repeats with unchanged health and load stay on one worker, with a full match from the second on |
| Selection.StickyIffNonNegative | crates/router-core/src/router.rs:252-256 | two idle workers: the second request stays exactly when the cache weight is not negative |
| Selection.WinnerNotTooBusy | crates/router-core/src/router.rs:233-256 | the load price of a winner over any other candidate is at most the cache weight times the prompt's blocks |
| Selection.DispatchKeepsBalanced | crates/router-server/src/api.rs:455-464 | select then acquire keeps any two candidates within the cache's worth plus one request |
| Selection.LoadStaysBalanced | crates/router-core/src/router.rs:80-86 | so it is in every run of dispatches from idle without releases |
| Selection.BalancedIs | crates/router-core/src/router.rs:80-86 | in figures: the load weight times the difference of any two counts is at most the cache weight times the prompt's blocks plus the load weight |
| Router.Router.constructor | crates/router-core/src/router.rs:102-113 | a new router has an empty index of 64 shards, idle counters and the configured block size, one for zero |
| Router.Router.ScoreWorker | crates/router-core/src/router.rs:236-248 | a candidate is scored on the index as it was, and exactly what it matches is touched |
| Router.Router.PickBest | crates/router-core/src/router.rs:233-250 | the result is the strict maximum of all candidates, judged on the index as it was before any was scored, and every candidate's match has been touched in turn |
| Router.ProbedAt | crates/router-core/src/router.rs:236-248 | scoring leaves holders as they were, and on each block some candidate matches the time at which the last such was scored |
| Router.ChosenOutranks | crates/router-core/src/router.rs:233-256 | no other candidate matches and is loaded so as to be worth more than the chosen one, ties going to fewer in flight and then the lower id |
| Router.ChatCandidatesIff | crates/router-core/src/router.rs:153-162 | a worker is asked exactly when it is healthy and serves both phases, or is healthy and no healthy worker does |
| Router.PoolCandidatesIff | crates/router-core/src/router.rs:204-210 | a worker is a pool's candidate exactly when its entry is healthy and of that pool |
| Router.ConfiguredPool | crates/router-core/src/worker.rs:58-74 | a configured worker, once healthy, is a candidate of exactly the pool it was configured for |
| Router.Router.PreferBoth | crates/router-core/src/router.rs:153-162 | workers for both phases if any is healthy, otherwise every healthy worker, by id |
| Router.Router.DispatchRoundRobin | crates/router-core/src/router.rs:165-177 | the worker at the counter's position, matched then recorded, and the counter advanced by one |
| Router.Router.DispatchCacheAware | crates/router-core/src/router.rs:178-191 | the winner's chain, and only that, is recorded after scoring |
| Router.Router.SelectForChat | crates/router-core/src/router.rs:141-194 | each policy's dispatch, to a registered healthy worker, and one for both phases when any is; each error exactly when it arises, with nothing changed then |
| Router.Router.SelectInPool | crates/router-core/src/router.rs:204-230 | a cache-aware dispatch to a healthy worker of the pool, an error exactly when there is none |
| Router.CacheAwareIsSelection | crates/router-core/src/router.rs:178-230 | a cache-aware dispatch among healthy workers, in a chat or within a pool, is one selection step of the membership runs |
| Router.RoundRobinIsSelection | crates/router-core/src/router.rs:165-177 | likewise a round-robin dispatch |
| RoundRobin.RoundHitsOnce | crates/router-core/src/router.rs:165-168 | any n consecutive decisions within one lap of the counter hit each of n candidates exactly once |
| RoundRobin.SharesWithinOne | crates/router-core/src/router.rs:165-168 | over any window within one lap, up to its very end, each share is the window divided by n, rounded down, or one more |
| RoundRobin.RoundsSurviveWrapIff | crates/router-core/src/router.rs:166-167 | every window of n decisions hits each candidate once, wrap included, exactly when n divides the counter's range |
| RoundRobin.WrapHitsTwice | crates/router-core/src/router.rs:166-167 | otherwise the window across the wrap hits one candidate twice |
| RoundRobin.PicksCycle | crates/router-core/src/router.rs:165-168 | the first decision takes the first candidate and each later one the next, the first again after the last and after the counter wraps |
| Router.GivenIsHits | crates/router-core/src/router.rs:165-177 | over a run of round-robin decisions with fixed candidates, a worker is given what its position in the id order is hit |
| Router.RoundRobinIsFair | crates/router-core/src/router.rs:71-72 | in such a run without a wrap, as many decisions as candidates give each exactly one, and no two candidates ever differ by more than one |
| Inflight.InflightTracker.EnsureCapacity | crates/router-core/src/inflight.rs:29-37 | the vector only grows, by idle counters |
| Inflight.InflightTracker.Count | crates/router-core/src/inflight.rs:40-49 | a worker without a slot counts as idle |
| Inflight.OpAt | crates/router-core/src/inflight.rs:29-81 | what acquire, drop and growth do to the vector, slot by slot, modulo 2^64 |
| Inflight.CountersWrap | crates/router-core/src/inflight.rs:63-81 | counting down undoes counting up and the reverse, wrap included |
| Inflight.InflightTracker.Total | crates/router-core/src/inflight.rs:52-61 | the wrapping sum of all counters |
| Inflight.InflightGuard.Acquire | crates/router-core/src/inflight.rs:97-103 | one more for the worker if it has a slot |
| Inflight.InflightGuard.Drop | crates/router-core/src/inflight.rs:111-115 | one fewer for the worker if it has a slot |
| Inflight.AcquireExactIffSlot | crates/router-core/src/inflight.rs:63-71 | an acquire keeps counts equal to live guards exactly when the slot exists |
| Inflight.OtherStepsStayExact | crates/router-core/src/inflight.rs:29-37 | drops and growth keep exact counts exact, no drop meets a zero, and growth changes no count |
| Inflight.ExactIffSlotted | crates/router-core/src/inflight.rs:84-115 | over every run counts equal live guards throughout exactly when every acquire finds its slot |
| Inflight.TotalIsLive | crates/router-core/src/inflight.rs:51-61 | in such runs the counters sum to the number of live guards |
| Inflight.LateSlotUnderflows | crates/router-core/src/inflight.rs:73-81 | acquire, grow, drop for a worker without a slot leaves its counter at the largest value |
| Workers.WorkerRegistry.FromConfig | crates/router-core/src/worker.rs:54-81 | configured workers get their position as id, keep URL and pool, and start unhealthy |
| Workers.WorkerRegistry.RegisterWorker | crates/router-core/src/worker.rs:83-98 | a fresh id, never in use before the call, and an unhealthy worker |
| Workers.WorkerRegistry.RemoveWorker | crates/router-core/src/worker.rs:100-106 | exactly that worker leaves, and is returned if it was there |
| Workers.WorkerRegistry.SetHealthy | crates/router-core/src/worker.rs:108-119 | reports a change exactly when there was one; unknown ids change nothing |
| Workers.WorkerRegistry.Snapshot | crates/router-core/src/worker.rs:133-153 | exactly the wanted workers by increasing id, whatever order the map yields |
| Workers.HealthyIff | crates/router-core/src/worker.rs:136-153 | the healthy workers are those of the entries marked healthy, and all workers those of all entries |
| Workers.ListingUnique | crates/router-core/src/worker.rs:133-135 | there is only one such listing, so selection from it is deterministic |
| Membership.StepKeepsGood | crates/router-core/src/worker.rs:86-119 | every step keeps: ids below the allocator, credit only to healthy registered workers, URLs and ids one to one |
| Membership.RegisteredIsNew | crates/router-core/src/worker.rs:83-98 | a registration adds one unhealthy worker of the given URL and pool under the next id and changes nothing else |
| Membership.PolledIs | crates/router-server/src/health.rs:33-38 | a poll sets that worker's health, and takes its credit exactly when it flips to down |
| Membership.GoodAlways | crates/router-server/src/health.rs:33-38 | so in every state of every run from such a state |
| Membership.GoodFromStart | crates/router-core/src/worker.rs:54-81 | so in every run that starts from a configuration with an empty index and nothing discovered |
| Membership.IdsNeverReturn | crates/router-core/src/worker.rs:48-51 | an id once gone is never registered again |
| Membership.NoCreditUntilRouted | crates/router-core/src/prefix.rs:144-146 | a worker down, gone or new at some point matches nothing from then on until a request is routed to it |
| Membership.ReconciledWorkers | crates/router-server/src/discovery.rs:43-54 | reconciliation removes exactly the ids of unwanted URLs and leaves other entries as they are |
| Membership.ReconciledUrls | crates/router-server/src/discovery.rs:37-64 | discovered URLs become exactly the desired ones, known ones keep their ids, and new ones get fresh, unhealthy workers |
| Membership.UnownedStay | crates/router-server/src/discovery.rs:27-31 | workers that discovery does not own stay registered, as they are described, through every run |
| Membership.SurvivorsKeepIds | crates/router-server/src/discovery.rs:56-62 | a URL wanted by every reconciliation keeps its id through every run |
| Membership.SurvivorsKeepCredit | crates/router-server/src/discovery.rs:43-54 | and reconciliations leave its worker's credit as it was |
| Membership.SurvivesIff | crates/router-server/src/discovery.rs:37-64 | over any run a discovered worker keeps its id exactly as long as every reconciliation wants its URL, and otherwise is gone for good without credit |
| Membership.LateRecordBreaksCredit | crates/router-core/src/router.rs:146-184 | recording a prompt keeps the credit invariant exactly when its worker is still healthy at that moment |
| Discovery.ReconcileWorkers | crates/router-server/src/discovery.rs:37-64 | the loops over map and set, in any order, make one reconciliation step, and return how many URLs went and came |
| Discovery.DropGone | crates/router-server/src/discovery.rs:43-54 | the removal loop purges and unregisters exactly the unwanted |
| Discovery.EnrollNew | crates/router-server/src/discovery.rs:55-62 | the registration loop enrols each unknown desired URL once, ids in the order drawn |
| Discovery.HandleDesired | crates/router-server/src/discovery.rs:174-193 | after an event discovery owns exactly the desired URLs, slots grow only on a change, to the live workers plus sixteen, and no count changes |
| Discovery.WatchOnce | crates/router-server/src/discovery.rs:144-196 | the event loop is a membership run with one reconciliation per event, each against the union of the slices so far, and leaves as many slots as that run's changes made |
| Discovery.OtherSlicesKeepUrls | crates/router-server/src/discovery.rs:156-158 | an event for one slice leaves every other slice's URLs wanted |
| Discovery.TrackedIsLastWord | crates/router-server/src/discovery.rs:161-173 | a slice is taken to advertise a URL exactly when the last event that named it lists it |
| Discovery.AdvertisedIff | crates/router-server/src/discovery.rs:174 | a URL is desired exactly when the last event that named some slice lists it |
| Discovery.VanishedSliceStays | crates/router-server/src/discovery.rs:161-173 | a tracked URL stays advertised by its slice exactly until that slice is named again without it, relists notwithstanding |
| Discovery.SurvivesStreamIff | crates/router-server/src/discovery.rs:156-180 | a worker discovered before the stream keeps its id exactly as long as some slice seen by the stream advertises it after every event, whatever requests, polls, registrations and evictions come between, and otherwise is gone for good without credit |
| Discovery.EventsKeepCredit | crates/router-server/src/discovery.rs:43-54 | the events themselves leave the credit of a worker that survives them as it was |
| Discovery.RestartForgetsWorkers | crates/router-server/src/discovery.rs:126-159 | a new stream opening with its start marker drops every worker discovered before, for good and without credit, whatever comes between its events |
| Slots.HasSlotIff | crates/router-server/src/discovery.rs:181-186 | over a run an id has a slot exactly when it had one at the start or some change left it below the number of live discovered workers plus sixteen |
| Slots.NewIdsHaveSlotsIff | crates/router-server/src/discovery.rs:181-186 | the ids drawn by a reconciliation all have slots exactly when there are none, or every id so far had a slot already, or all ids so far number at most the live workers plus sixteen |
| Churn.OneLive | crates/router-server/src/discovery.rs:159-180 | in a run whose every event replaces the one URL of one slice, only the newest worker is owned, under the newest id |
| Churn.ChurnOutgrowsSlots | crates/router-server/src/discovery.rs:181-186 | in such a run from the configuration the live worker has a slot exactly while configured workers and replacements number at most seventeen |
| Discovery.HandleProbe | crates/router-server/src/health.rs:33-38 | one probe result makes one poll step: a flip to down purges, no flip changes nothing |
| Discovery.PollRound | crates/router-server/src/health.rs:15-39 | after a round health mirrors the probes, and exactly the credit of workers found down is gone |
| ProxyStream.CountAlone | crates/router-server/src/api.rs:288-294 | the count of matching windows is the number of positions where the marker occurs |
| ProxyStream.ProxyStreamState.PassOn | crates/router-server/src/api.rs:225-247 | an upstream item reaches the client unchanged, and the state is then that of one more item passed |
| ProxyStream.ProxyStreamState.Poll | crates/router-server/src/api.rs:225-278 | each poll yields the next upstream item, error or chunk, then the owed marker, and the one after the last makes the one record |
| ProxyStream.ClientReads | crates/router-server/src/api.rs:225-252 | the client can read every upstream item in its place and, in streaming mode only, at most one more, which is the marker line |
| ProxyStream.OutcomeIs | crates/router-server/src/api.rs:253-276 | the record is 502 exactly when some item was an error, and otherwise the time of the first chunk or else the end, and the counted tokens or the upstream's own figure |
| ProxyStream.FinalIsMarkerLine | crates/router-server/src/api.rs:252-290 | the added item is the marker watched for and a blank line |
| ProxyStream.Drain | crates/router-server/src/api.rs:200-279 | a client reads a prefix of the upstream items, each as it was, and then the owed marker; one record is made exactly when it reads to the end, and the guard is dropped exactly once |
| ProxyStream.ChunksMissStraddlers | crates/router-server/src/api.rs:282-294 | counting chunk by chunk misses exactly the occurrences split between chunks |
| ProxyStream.MarkerAddedIff | crates/router-server/src/api.rs:250-252 | the marker is added exactly when streaming and every marker sent, if any, was split |
| ProxyStream.MarkersReceived | crates/router-server/src/api.rs:201-206 | a streaming client gets all markers sent, one more exactly when all of those were split, and always at least one |
| ProxyStream.EndsWithMarkerIff | crates/router-server/src/api.rs:201-203 | the client's stream ends with the marker exactly when it was added or the upstream's body ends with it, read strictly or up to line ends |
| ProxyStream.EarlyMarkerIsNotLast | crates/router-server/src/api.rs:231-233 | an upstream that goes on after its marker leaves the client's stream without one at the end |
| ProxyStream.SplitMarkerSentTwice | crates/router-server/src/api.rs:231-233 | a marker cut anywhere into two chunks reaches the client twice |
| ProxyStream.ReportedTokens | crates/router-server/src/api.rs:234-276 | a fault-free stream reports the markers of its body less the split ones, exact precisely when none was split |

## Left out

- HTTP handlers, requests to workers, response headers, JSON and YAML, logging, metrics export and the Prometheus text lookup: input and output.
- The Kubernetes client, the watcher's own reconnecting and the backoff, and `endpoint_urls`: an event arrives here with its set of URLs.
- Python bindings, SDK, benchmark driver and trace generator; the mock's latency formula and word generation.
- The two-phase network flow and `KvTransfer`: each of its two selections is one `SelectInPool`.
- SipHash and SHA-256: hasher and digester are parameters, collision-free on the inputs used where that matters.
- Selection.CompareIsTotalOrder: weights and scores are reals, so rounding, infinities and the NaN branch at `crates/router-core/src/router.rs:40-45` are not modelled beyond `Selection.NoScoreNoOrder`.
- Memory ordering of atomics and recovery from poisoned locks; the counters wrap as 64-bit integers do, but ids, lengths and token totals are unbounded.
- Interleaving.ConcurrentMatchBounds: the sweep's read passes are not steps; the victims it goes on to remove may be any list, which covers whatever those passes could have seen.
- Membership.GoodAlways: steps are atomic. `Membership.LateRecordBreaksCredit` says what selection loses without that.
- Membership.NoCreditUntilRouted: a worker whose restart falls between two polls is never seen down and keeps its credit, as in the code.
- Engine.MockEngine.RecordAndMatch: the cap is a natural number; the script accepts a negative one and then fails when the cache is empty.
- Prompts.BothSidesAgree: roles that are not strings are not modelled.
- RouterError's text and the `policy` it carries: only the kind of error and the pool are kept.
- `PrefixIndex::spawn_eviction_task`: only how often eviction runs; any number of evictions is covered by the runs.
- `WorkerRegistry::get`, `is_healthy`, `healthy_count`, `any_healthy`: plain reads of the map.
