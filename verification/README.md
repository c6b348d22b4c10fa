# kv-router: a verified model

kv-router is a Go router in front of several language-model inference backends. It remembers which
prompt prefixes each backend is likely to hold in its key-value cache, and it sends a request where
its prefix is warm, the queue is short and the entry is unlikely to be evicted. This project models
that routing core in Dafny and proves what it keeps, over whole histories of calls and under every
interleaving of concurrent requests.

Run `dafny verify dfyconfig.toml` in this directory.

## How the model is laid out

| module | models |
|---|---|
| `Words`, `Fnv` | 64-bit words; the streaming 64-bit FNV-1a hash behind the prefix keys |
| `Tokenizer`, `TokenizerLaws` | flattening a conversation, cutting it into blocks, hashing each block; what the hashes say about the text |
| `Recency`, `Directory` | the residency directory as a function of its commit history, and the theorems about it |
| `CacheIndex` | the directory as it runs: nested maps, time and sequence stamps, eviction by scanning |
| `RadixFlat`, `RadixSubtree`, `SliceSort`, `RadixTree` | the radix tree on the heap and the flat map it refines |
| `Eviction` | the eviction model: ordered list, running total, eviction log |
| `Sorting`, `Scorer`, `ScorerLaws` | the library sort, scores, ranking and routing; what the score is worth in numbers |
| `Health`, `Pool` | the health state machine, the reservation counter, the pool |
| `Recorder` | the ring of route events |
| `Handler`, `HandlerLaws` | the request handler over the real pool, directory and recorder, undisturbed; what it leaves behind for every outcome |
| `Fleet`, `FleetSafety`, `FleetTheorems`, `FleetProgress` | the router as a step system, its invariant, the theorems about whole runs, and the bound on how long a request takes |
| `HandlerRuns` | that the handler and the step system describe the same code |

Code that changes state is modelled by classes and methods with loops; each is proved against a
function of its history (`Directory.Kept`, `Health.After`, the recorder's log, the radix tree's flat
map), and the theorems are about that function. The clock is an input that never runs backwards.
Iteration over a Go map is an arbitrary choice. A method that the source protects with a lock is one
atomic method; what happens between such methods in concurrent use is the subject of `Fleet`, where
one step is one access to shared state and a run is any sequence of steps.

The main results:

* **Exact LRU.** Committing a batch and then evicting the oldest by scanning, in any order, leaves
  exactly the `capacity` most recently touched distinct keys: the same directory as touching one key
  at a time (`CacheIndex.Index.Commit`, `Directory.ExactLru`, `Directory.CommitIsLru`).
* **Single orphan frontier.** With collision-free keys, all unreachable entries of a backend were
  last touched by one and the same commit; everything else still has its whole chain.
* **Homecoming.** A follow-up turn finds the blocks its earlier turn left behind as long as at most
  `capacity` distinct keys were touched since, also in a concurrent run. This one needs no
  assumption about collisions.
* **Lookup is the naive scan** until the first eviction, and never more than it afterwards.
* **Admission safety.** Under every interleaving the counter of a backend is its number of holders
  and within its limit, the total queue depth is the number of requests holding slots, every acquired
  slot is released exactly once, the directory changes only on behalf of a request that holds a slot
  on that backend, a 429 means that every candidate was seen unhealthy or full, a 503 that every
  backend was seen unhealthy, and a compare-and-swap fails only if another request changed that very
  counter since the load before it.
* **Lock-freedom.** A request retries at most as often as others take a slot or give one back, and takes
  at most seven steps per backend and six more, plus two for every such move; until it is done some step
  of its own is possible.
* **One request, undisturbed,** is served by the first available backend in the ranking of the true
  snapshots, or refused for the right reason; every counter is back where it was, and directory and
  log have changed by exactly what the outcome proves and one event, or by nothing. Those changes and
  that reply are what a run of the step system gives that goes on with steps of this request alone
  (`HandlerRuns.HandlerContinuesRun`), so the theorems about runs are theorems about the handler.
* **The next turn comes home.** After a request of which a first byte came or a plain response below
  400, the next turn of the conversation finds at least its full blocks on the backend that served it
  (`HandlerLaws.TwoTurns`); no other outcome teaches the directory anything.
* **Scores in numbers.** The score is the matched share times the cache-hit weight, less the used shares
  of queue and directory times theirs; so of two backends that differ in one of these the better one
  comes first.
* **The radix tree is a flat map** from (prefix, backend) to entry, every entry is stamped with its last
  use, and eviction takes exactly the entries of one backend that were used least recently according to
  the log of all uses, and nothing else.

Collision-freedom is never claimed of FNV or of the block hash. Where a theorem needs it, it is an
explicit hypothesis about the finitely many block sequences involved (`Directory.CollisionFree`).
Histories that meet it are exhibited (`Directory.OrphansExist`).

One property turned out to need a condition: `Route` and the head of `Rank` agree except when the
least-loaded fallback sees only queues of the largest integer. `Scorer.RouteAgreesWithRank` gives
the exact condition and `Scorer.SaturatedBackendIsNotRouted` an input where they differ.

The identifiers that `Recent` returns are always distinct. They descend one by one from that of the
newest event exactly if as many of the newest events were stored in the order in which they and those
between them drew their identifiers, and they are the highest ones drawn if the newest event moreover
has the highest identifier of all (`Recorder.DescendingIffAgree` covers both). One undisturbed call extends
the agreement by one, whatever happened before it. It does not hold for all concurrent calls, because
the identifier is taken before the lock: in `Recorder.Overtake` the later of two calls overtakes the
earlier one and the newest event has the lower identifier. Likewise a summary loads its four counters
one by one, so that a call in flight can make it report more errors than requests
(`Recorder.TornSummary`); `Recorder.Recorder.Summarize` says exactly when it does.

What is recorded of a failed exchange, and what the directory learns from it, are not what one might
expect. A stream whose upstream answers 400 or above, and whose body is copied to its end, returns no
error to the handler (internal/backend/proxy.go:54-57), which records status 200
(internal/api/handler.go:154-158). A plain response below 400 whose body breaks off while it is copied
is recorded with its own status and committed, since the error of the copy is dropped
(internal/api/handler.go:171-180). `Handler.Server.FailureRecordedAsSuccess` says that these two are
the only failures recorded as successes. `Handler.Server.FailureLearntFrom` says that the directory
learns from a failure exactly if it is such a cut plain response or a stream broken off after its first
byte. `Handler.FailuresOfEveryKind` has an instance of every combination.

Where prose and code disagree the model follows the code:

* Streams commit on their first byte (internal/api/handler.go:138-142), although
  web-ui/src/pages/EngineeringPage.tsx:306-309 says otherwise.
* A lost reservation race falls through to the next candidate (internal/api/handler.go:101-113),
  although web-ui/src/pages/EngineeringPage.tsx:227-233 says otherwise.
* The handler's comment speaks of the radix tree and the eviction model
  (internal/api/handler.go:21-28); the code uses the directory of internal/cacheindex/index.go.

## Model

| member | source | states |
|---|---|---|
| Fnv.StepIsBijective | internal/cacheindex/index.go:139-149 | One FNV-1a byte step, xor then multiply by the odd prime modulo 2^64, has an inverse: no two states meet |
| Fnv.StepTellsBytesApart | internal/cacheindex/index.go:145 | Different bytes lead from one state to different states |
| Fnv.FoobarVector | internal/cacheindex/index.go:141-146 | The published 64-bit FNV-1a hash of "foobar" |
| Fnv.EmptyPrefixKey | internal/cacheindex/index.go:141 | Hashing starts from the published offset basis |
| Fnv.LittleEndianBytes | internal/cacheindex/index.go:144 | Byte i of a block's encoding is its i-th digit to base 256 |
| Fnv.OneByteDiffers | internal/cacheindex/index.go:143-146 | After any prefix, two blocks that differ in exactly one byte lead to different keys |
| Fnv.AbsorbIsInjective | internal/cacheindex/index.go:143-146 | Hashing the same bytes onward never makes two different states equal |
| Fnv.BlockBytesIsInjective | internal/cacheindex/index.go:144 | Different blocks have different little-endian bytes |
| Fnv.PrefixKeyAppend | internal/cacheindex/index.go:143-146 | The key of a longer prefix is the key of the shorter one with one more block absorbed |
| Fnv.Write | internal/cacheindex/index.go:145 | The byte loop computes the hash of everything written so far |
| Fnv.CumulativeKeys | internal/cacheindex/index.go:139-149 | The streaming loop yields at position n the from-scratch hash of the first n + 1 blocks |
| Fnv.NeighboursDiffer | internal/cacheindex/index.go:143-146 | After any prefix, two blocks that differ by one in their lowest byte lead to different keys |
| Fnv.DivergencePersists | internal/cacheindex/index.go:139-149 | Two prefixes continued by the same blocks have different keys exactly if they had different keys before |
| Tokenizer.FlattenAppend | internal/tokenizer/tokenizer.go:35-39 | The text of a longer conversation extends the text of the shorter one |
| TokenizerLaws.FlattenOne | internal/tokenizer/tokenizer.go:35-39 | One message flattens to role, colon, content |
| Tokenizer.BlockHasher.ChunksCoverText | internal/tokenizer/tokenizer.go:47-58 | The blocks, put back together, are the text |
| Tokenizer.BlockHasher.FullBlocksAreStable | internal/tokenizer/tokenizer.go:47-58 | The hashes of the full blocks of a text are unchanged in any text that extends it |
| Tokenizer.BlockHasher.HashPrefix | internal/tokenizer/tokenizer.go:25-61 | The builder and offset loops compute one digest per block of the flattened text, the last one possibly short |
| TokenizerLaws.HashCount | internal/tokenizer/tokenizer.go:47-58 | One hash for every block begun |
| TokenizerLaws.HashOfStretch | internal/tokenizer/tokenizer.go:47-58 | The i-th hash is the digest of the i-th stretch of block size, cut short by the end of the text |
| TokenizerLaws.SameHashIffSameStretch | internal/tokenizer/tokenizer.go:47-58 | A block full in both texts has the same hash in both exactly if they agree on that stretch of bytes, unless the digest clashes on these two |
| TokenizerLaws.HashesDetermineText | internal/tokenizer/tokenizer.go:25-61 | Equal hashes mean equal texts, as far as the digest tells their stretches apart |
| Tokenizer.CommonPrefixIff | internal/tokenizer/tokenizer.go:63-76 | The match length reaches k exactly if both sequences have k elements and agree on them |
| Tokenizer.PrefixMatch | internal/tokenizer/tokenizer.go:65-76 | The index loop returns that match length |
| Recency.BatchEqualsOneAtATime | internal/cacheindex/index.go:78-89 | Touching a batch and then dropping the oldest ends like touching and dropping one key at a time |
| Recency.StackDistance | internal/cacheindex/index.go:87-89 | An element is among the newest `cap` exactly if at most `cap` distinct elements were touched from its last touch on |
| Directory.ExactLru | internal/cacheindex/index.go:64-90 | The directory holds min(capacity, distinct) slots, without repetition, and a slot exactly if at most `capacity` distinct slots were touched from its last touch on |
| Directory.CommitIsLru | internal/cacheindex/index.go:78-89 | One commit promotes the whole batch and keeps the newest `capacity`, the same as one key at a time |
| Directory.WholeRunIsLru | internal/cacheindex/index.go:64-90 | A whole history of commits ends in the textbook LRU cache of all its touches |
| Directory.KeptWithinCapacity | internal/cacheindex/index.go:87-89 | No more slots are held than the capacity; none if it is not positive |
| Directory.SingleOrphanFrontier | internal/cacheindex/index.go:52-89 | With collision-free keys every held prefix with a hole below it was last touched by the one commit that last touched the most recent missing slot |
| Directory.OtherCommitsStayReachable | internal/cacheindex/index.go:52-89 | With collision-free keys a prefix last touched by any other commit has its whole chain, and every lookup extending it reaches it |
| Directory.OversizeCommitIsUnreachable | internal/cacheindex/index.go:61-63 | Of a batch that alone overflows the shelf exactly the keys of its longest prefixes stay, as many as fit, and nothing older; with collision-free keys a lookup of the very same blocks then finds nothing |
| Directory.OrphansExist | internal/cacheindex/index.go:61-90 | A collision-free commit of two blocks leaves an orphan at capacity one, and is found again by lookup and scan at capacity two |
| Directory.OneByteOffIsAMiss | internal/cacheindex/index.go:43-90 | After a commit of one block a lookup finds it, and a lookup of a block that differs in one byte finds nothing |
| Directory.OtherNamespacesGainNothing | internal/cacheindex/index.go:43-90 | A commit in one namespace makes no lookup in another one reach further |
| Directory.HeldIffAfterFrontier | internal/cacheindex/index.go:119-138 | Once something was evicted, a slot is held exactly if it was last touched after the most recent missing slot |
| Directory.Homecoming | internal/tokenizer/tokenizer.go:25-61 | A text committed on a backend is found again, up to its full blocks, by every text in the namespace that extends it, as long as at most `capacity` distinct keys were touched from that commit on |
| Directory.FollowUpTurnComesHome | internal/cacheindex/index.go:43-90 | The same for a conversation and its follow-up turns |
| Directory.LookupNeverExceedsScan | internal/cacheindex/index.go:43-59 | With collision-free keys a lookup never claims more than the best prefix match with any sequence committed to that backend in that namespace |
| Directory.LookupEqualsScan | internal/cacheindex/index.go:43-59 | It claims exactly that as long as nothing was evicted |
| CacheIndex.TouchPromotes | internal/cacheindex/index.go:79-85 | Stamping an entry with the next time and sequence number makes it the most recent one and keeps the order of the rest |
| CacheIndex.DeleteOldest | internal/cacheindex/index.go:134-137 | Deleting the first slot, and its namespace if that empties it, leaves the rest in order |
| CacheIndex.ScanForOldest | internal/cacheindex/index.go:119-133 | The double scan, in any order, finds the first slot of the recency order, or the zero time exactly if there is no entry |
| CacheIndex.Index.EvictOldest | internal/cacheindex/index.go:119-138 | Removes exactly the oldest entry; does nothing to an empty table |
| CacheIndex.Index.TotalEntries | internal/cacheindex/index.go:112-118 | The sum over all namespaces is the number of slots held |
| CacheIndex.Index.Shrink | internal/cacheindex/index.go:87-89 | The eviction loop terminates with exactly the newest `capacity` slots |
| CacheIndex.Index.TouchAll | internal/cacheindex/index.go:71-86 | The touch loop promotes every cumulative key, shortest first, with contiguous sequence numbers |
| CacheIndex.Index.Register | internal/cacheindex/index.go:36-40 | Gives the backend an empty shelf of that capacity and leaves all others alone |
| CacheIndex.Index.Commit | internal/cacheindex/index.go:64-90 | Appends the batch to the backend's history and nothing else; an unknown backend and one without capacity ignore it; the tables hold what the histories say |
| CacheIndex.Index.Lookup | internal/cacheindex/index.go:43-59 | Returns the number of leading prefixes that are all held; zero for an unknown backend |
| CacheIndex.Index.Usage | internal/cacheindex/index.go:92-100 | Reports capacity and number of slots held, never more than the capacity; zeros for an unknown backend |
| RadixFlat.PathsAreSequences | internal/radixtree/tree.go:63-72 | Following the hashes of a sequence gives a path that spells that sequence |
| RadixFlat.SequencesArePaths | internal/radixtree/tree.go:63-72 | Every path is the path of the sequence it spells |
| RadixFlat.EntriesAreKeys | internal/radixtree/tree.go:84-90 | A node's list has exactly one entry for every key of its path |
| RadixTree.Tree.NothingLonger | internal/radixtree/tree.go:108-112 | Once a hash has no child, no longer prefix of the query has an entry, so the result stands |
| RadixFlat.AtRoot | internal/radixtree/tree.go:104-106 | Exactly the backends with an entry at the root match zero blocks |
| RadixFlat.Deepen | internal/radixtree/tree.go:115-120 | The backends with an entry at this depth now match that many blocks; all others keep their match |
| RadixTree.Tree.constructor | internal/radixtree/tree.go:48-54 | A new tree is the empty flat map with one node |
| RadixTree.Tree.Insert | internal/radixtree/tree.go:59-91 | The entry for that prefix and backend gets this time as last access and one more hit and keeps its insertion time, or is new with one hit; every other entry is unchanged; new nodes lie on the way to the prefix; the use is logged and stamps stay those of the last use |
| RadixTree.Tree.Descend | internal/radixtree/tree.go:63-72 | Reaches the node of the prefix, creating only missing nodes on the way, and counts them |
| RadixTree.Tree.Follow | internal/radixtree/tree.go:132-139 | Child tables lead to a prefix exactly if it is among the counted nodes |
| RadixTree.Tree.Touch | internal/radixtree/tree.go:128-149 | An existing entry for that prefix and backend gets this time as last access and one more hit; every other entry is unchanged; without one nothing changes; the use is logged and stamps stay those of the last use |
| RadixTree.Tree.Lookup | internal/radixtree/tree.go:96-124 | Maps a backend to the length of the longest prefix of the query holding an entry for it, and leaves out exactly the backends with none |
| RadixTree.Tree.Walk | internal/radixtree/tree.go:170-182 | The recursive walk, children in any order, collects every entry of the backend in the subtree exactly once |
| SliceSort.InsertionSort | internal/radixtree/tree.go:190-194 | The hand-written insertion sort yields an ascending permutation |
| RadixSubtree.RemoveIndices | internal/radixtree/tree.go:214-224 | Removing in descending index order leaves exactly the entries at the unlisted positions, in order |
| RadixSubtree.CutDrops | internal/radixtree/tree.go:221-223 | Cutting out a backend's entry drops its key from the flat map and nothing else, and keeps all other backends' entries in order |
| RadixTree.Tree.Choose | internal/radixtree/tree.go:182-212 | Picks exactly the least recently accessed entries, up to the count, grouped by node |
| RadixTree.OldestGo | internal/radixtree/tree.go:190-212 | Dropping the first refs in order of age drops min(count, all) entries, each no newer than every one kept |
| RadixTree.Tree.Evict | internal/radixtree/tree.go:155-227 | Removes exactly min(count, the backend's entries) entries, each last used, by the log of insertions and touches, no later than each kept one; every other entry stays, other backends' in order at every node; nodes stay; both counters stay exact |
| RadixFlat.LastUse | internal/radixtree/tree.go:78 | The time of the last logged use of a key, none exactly if there is none |
| RadixSubtree.EvictedByUse | internal/radixtree/tree.go:190-212 | Dropping the least stamps drops the least recently used according to the log |
| RadixFlat.OthersAreTheRest | internal/radixtree/tree.go:214-224 | The entries of all other backends at a node are its list without this backend's entry |
| RadixSubtree.LengthIsHashes | internal/radixtree/tree.go:231-252 | The depth of a path is the number of its hashes |
| RadixTree.Tree.EntryCountIsReal | internal/radixtree/tree.go:43-45 | The entry counter is the number of entries stored in all nodes together |
| RadixTree.Tree.Stats | internal/radixtree/tree.go:231-252 | Reports both exact counters and the length of the longest path in the tree |
| Eviction.VictimCount | internal/eviction/lru.go:75 | The least number of oldest entries whose removal makes room, all of them if none does |
| Eviction.InsertKeepsConsistent | internal/eviction/lru.go:56-89 | An insertion keeps the total, the order of access, the order of the log, the conservation of entries and the capacity bound |
| Eviction.PromotionKeepsConsistent | internal/eviction/lru.go:105-113 | So does a promotion |
| Eviction.Model.Register | internal/eviction/lru.go:43-51 | Gives the backend an empty cache of that capacity |
| Eviction.Model.RecordInsert | internal/eviction/lru.go:56-89 | Evicts the shortest least-recently-used prefix that makes room, returns its hashes oldest first, logs it with the eviction time, appends the new entry; used stays within capacity unless that entry is alone |
| Eviction.Model.MakeRoom | internal/eviction/lru.go:73-82 | The eviction loop removes exactly that prefix |
| Eviction.Model.RecordAccess | internal/eviction/lru.go:93-114 | Stamps the oldest entry that shares a block with the query and moves it to the recent end; the rest keep their order |
| Eviction.FirstMatchMeans | internal/eviction/lru.go:105-106 | One common block anywhere is enough, and no older entry has one |
| Eviction.TotalIsBlocks | internal/eviction/lru.go:73-89 | The running total is the number of blocks that the entries hold |
| Eviction.Model.EvictedSince | internal/eviction/lru.go:176-192 | Returns exactly a suffix of the eviction log: the evictions at or after the given time |
| ScorerLaws.ScoreFormula | internal/scorer/scorer.go:59-90 | The score is matched share times cache-hit weight, less queue share and directory share times theirs; limits that are not positive do not count |
| ScorerLaws.MatchIsWorth | internal/scorer/scorer.go:72 | d more matched blocks are worth d / n of the cache-hit weight |
| ScorerLaws.QueueCosts | internal/scorer/scorer.go:74-77 | d more queued requests cost d / limit of the queue weight, nothing without a limit |
| ScorerLaws.UsageCosts | internal/scorer/scorer.go:79-83 | d more used blocks cost d / capacity of the eviction weight, nothing without a capacity |
| ScorerLaws.ExtremeScores | internal/scorer/scorer.go:85-89 | A full match on an idle, empty backend scores the cache-hit weight; no match on a full one costs both penalties |
| Scorer.ScoreBounds | internal/scorer/scorer.go:59-90 | Match, queue and usage within their limits give a score between minus the penalty weights and the cache-hit weight |
| Scorer.RankIsSortedPermutation | internal/scorer/scorer.go:137-171 | The ranking is a permutation of the healthy inputs in which each is preferred to all that follow |
| Scorer.RankIgnoresInputOrder | internal/scorer/scorer.go:132-136 | With distinct identifiers the ranking does not depend on the order of its input |
| ScorerLaws.RankOrder | internal/scorer/scorer.go:137-171 | With a hit anywhere by descending score, otherwise by ascending queue depth, ties by ascending identifier |
| ScorerLaws.BetterMatchFirst | internal/scorer/scorer.go:95-171 | Of two healthy backends that differ only in name and match the better match is ranked first, and the other is not routed to |
| ScorerLaws.ShorterQueueFirst | internal/scorer/scorer.go:95-171 | Likewise for the shorter queue, with a hit anywhere |
| ScorerLaws.RoomierFirst | internal/scorer/scorer.go:95-171 | Likewise for the emptier directory, with a hit anywhere |
| ScorerLaws.IdlerFirst | internal/scorer/scorer.go:95-189 | Without a hit the shorter queue is ranked first whatever the weights, and the other is not routed to |
| Sorting.LessIsLexicographic | internal/backend/pool.go:178 | The order on identifiers is that of a dictionary |
| Scorer.Rank | internal/scorer/scorer.go:137-171 | Filter, score table and sort compute that ranking |
| Scorer.BestIndex | internal/scorer/scorer.go:118-127 | The first healthy backend with the highest score |
| Scorer.LeastLoadedIndex | internal/scorer/scorer.go:174-189 | The first healthy backend with the shortest queue, none if all queues are the largest integer |
| Scorer.Route | internal/scorer/scorer.go:95-130 | The best-so-far loop returns the identifier of the best scorer, or of the least loaded without a hit |
| Scorer.LeastLoaded | internal/scorer/scorer.go:174-189 | The best-so-far loop returns the identifier of the least loaded healthy backend |
| Scorer.RouteAgreesWithRank | internal/scorer/scorer.go:95-171 | On input sorted by identifier routing returns the head of the ranking exactly if there is a hit, or no healthy backend, or some healthy queue below the largest integer |
| Scorer.SaturatedBackendIsNotRouted | internal/scorer/scorer.go:174-189 | An input on which routing and ranking differ |
| Health.HistoryIsTracked | internal/backend/pool.go:257-288 | The consecutive counters are the lengths of the current runs, wrapped to 32 bits |
| Health.HealthyIffLatestRunIsSuccess | internal/backend/pool.go:257-288 | Healthy exactly if the latest completed run of two successes is more recent than the latest completed run of three failures |
| Health.FlapDamping | internal/backend/pool.go:52-56 | Admissions minus removals is one if healthy and zero otherwise; each admission cost two probes and each removal three |
| Health.TwoSuccessesAdmit | internal/backend/pool.go:218-223 | Two successes in a row admit a backend whatever went before |
| Health.Thresholds | internal/backend/pool.go:257-288 | Two successes in a row admit and one does not; three failures in a row remove and two do not |
| Health.TransitionsAreTurns | internal/backend/pool.go:52-56 | The transition counters count how often the verdict has turned each way |
| Health.WraparoundIsInvisible | internal/backend/pool.go:257-288 | Counters that never wrap would give the same verdicts |
| Pool.Backend.CompareAndSwap | internal/backend/pool.go:85 | Swaps exactly if the counter has the expected value, and says so |
| Pool.Backend.TryReserve | internal/backend/pool.go:79-89 | Among goroutines that interfere before the swap and again before the next load: success adds one to a value below the limit, refusal has seen the limit, an attempt fails only if the counter changed since its own load; no limit means no refusal |
| Pool.Backend.Release | internal/backend/pool.go:92 | Takes one off the counter |
| Pool.Backend.Probe | internal/backend/pool.go:257-288 | The fields are again what the probe history, with this outcome added, makes them |
| Pool.Backend.Bootstrap | internal/backend/pool.go:218-223 | At most two probes, none once healthy; ends healthy if all probes made succeed |
| Pool.NewPool | internal/backend/pool.go:120-163 | Succeeds exactly if all names are given and different and all URLs acceptable, with exactly the configured backends, idle, unhealthy, with the configured limit or else 64 and the configured interval or else ten seconds; otherwise reports the first fault and its kind |
| Pool.Registry.Healthy | internal/backend/pool.go:171-180 | Exactly the healthy backends, in strictly increasing order of identifier, whatever the order of the map |
| Pool.Registry.Get | internal/backend/pool.go:166-168 | The backend of that name, or none |
| Recorder.RingStep | internal/telemetry/recorder.go:69-73 | Writing at the next position never hits a cell that still counts |
| Recorder.ReadBack | internal/telemetry/recorder.go:86-88 | The wrapped index of the n-th newest event is in range and is the cell it was written to |
| Recorder.Recorder.constructor | internal/telemetry/recorder.go:47-52 | An empty log; a capacity that is not positive becomes 1000 |
| Recorder.Recorder.Stamp | internal/telemetry/recorder.go:55-56 | Draws the next consecutive identifier |
| Recorder.Recorder.CountRequest | internal/telemetry/recorder.go:57 | One atomic step of one call: it passes the first counter, which moves |
| Recorder.Recorder.CountError | internal/telemetry/recorder.go:58-60 | The second, which moves exactly if the status is 400 or above |
| Recorder.Recorder.CountStream | internal/telemetry/recorder.go:61-63 | The third, which moves exactly for a stream |
| Recorder.Recorder.CountHit | internal/telemetry/recorder.go:64-66 | The fourth, which moves exactly if some blocks matched |
| Recorder.Recorder.Tally | internal/telemetry/recorder.go:57-66 | The four steps, one after the other; each counter counts exactly the calls that have passed it |
| Recorder.Recorder.Store | internal/telemetry/recorder.go:67-73 | Appends an event that has passed all counters, once, to the log of which the ring is the tail, in whatever order concurrent calls arrive |
| Recorder.StoredIdsAreDistinct | internal/telemetry/recorder.go:54-74 | No identifier is ever stored twice, under any interleaving |
| Recorder.DescendingIffAgree | internal/telemetry/recorder.go:54-91 | For any top, the n newest events carry the identifiers from top down exactly if they are, in order, the last n that drew one up to top |
| Recorder.Overtake | internal/telemetry/recorder.go:54-74 | An interleaving of two calls after which the newest event has the lower identifier |
| Recorder.Recorder.Record | internal/telemetry/recorder.go:54-74 | Stamp, Tally and Store in one, for an undisturbed call, which extends the agreement between the order of storing and that of identifiers by one |
| Recorder.Recorder.Recent | internal/telemetry/recorder.go:76-91 | The newest events, newest first: as many as the limit, 100 if that is out of range, and never more than there are; identifiers are distinct; exact conditions for their descending from the highest drawn, and from that of the newest event |
| Recorder.Recorder.Summarize | internal/telemetry/recorder.go:93-95 | Each counter is what it was plus the calls that passed it before its own load, whatever atomic steps others take between the loads; exact conditions for errors, streams or hits to exceed the requests |
| Recorder.TornSummary | internal/telemetry/recorder.go:93-95 | A summary that reports more errors than requests |
| Handler.Server.Sample | internal/api/handler.go:70-86 | Every healthy backend's snapshot and match, as the directory and the pool have them |
| Handler.Server.Walk | internal/api/handler.go:101-113 | Reserves on the first candidate that is healthy and has room; a walk that finds none means that no backend was available |
| Handler.Server.Plan | internal/api/handler.go:64-97 | Ranks the true snapshots; every healthy backend is a candidate |
| Handler.Server.Reserve | internal/api/handler.go:64-121 | Takes one slot of the first available backend in the ranking of true snapshots and leaves the other counters alone; a refusal means that none was available, and says that no backend is healthy exactly if none is |
| Handler.Server.ForwardStream | internal/api/handler.go:136-158 | Commits exactly if a first byte came, however the stream ended, and records exactly one event: 502 if it failed, otherwise 200 whatever the upstream status |
| Handler.Server.ForwardPlain | internal/api/handler.go:159-181 | Commits exactly if the status is below 400 and records exactly one event with that status, 502 without an answer |
| Handler.RecordedAsError | internal/api/handler.go:136-181 | An exchange is recorded as an error exactly if there was no answer, the stream broke off, or a plain response had an error status |
| Handler.Server.FailureRecordedAsSuccess | internal/api/handler.go:136-181 | A failed exchange is recorded as a success exactly if it is an error status on a stream copied to its end or a plain response below 400 whose body was cut |
| Handler.Server.FailureLearntFrom | internal/api/handler.go:136-181 | The directory changes on a failed exchange exactly if it is a stream broken off after its first byte or a plain response below 400 whose body was cut, and the backend has a shelf with capacity; the change is the commit of that prompt |
| Handler.FailuresOfEveryKind | internal/api/handler.go:136-181 | A failure recorded as success or as error, learnt from or not: an outcome for each of the four combinations |
| HandlerLaws.DirectoryAfterExchange | internal/api/handler.go:136-181 | For every outcome: the prompt is appended to the backend's history if a first byte of a stream came or a plain response was below 400, and nothing changes otherwise |
| HandlerLaws.WhatIsRecorded | internal/api/handler.go:184-185 | The recorded event, field by field |
| HandlerLaws.SnapshotReadsTruly | internal/api/handler.go:70-86 | What is sampled is what pool and directory show |
| HandlerLaws.NamespacesAreApart | internal/api/handler.go:61 | Different models have different namespaces |
| HandlerLaws.ServedConversationComesHome | internal/api/handler.go:138-178 | After such an exchange every conversation with that model that goes on from this one finds at least its full blocks there, if the distinct keys of the commit fit the shelf |
| HandlerLaws.OtherModelsGainNothing | internal/api/handler.go:58-61 | A request for one model makes no conversation with another one match better |
| HandlerLaws.TwoTurns | internal/api/handler.go:29-182 | The handler followed by the next turn's lookup: it finds at least the first turn's full blocks |
| Handler.BlocksAreNeverEmpty | internal/api/handler.go:45-56 | A request that is not refused as malformed has at least one block, so no commit is empty |
| Handler.Server.HandleChat | internal/api/handler.go:29-182 | Undisturbed: refused only if nothing is available, with the right reason, otherwise served by the first available backend of the true ranking; every counter is back where it was; directory and log changed by exactly what the outcome proves and one event, or by nothing |
| FleetSafety.NextHolders | internal/backend/pool.go:79-92 | A step changes the set of holders only by one acquisition or release of the acting request |
| FleetSafety.NextPhaseFits | internal/api/handler.go:64-121 | What a request has read stays within the bounds its score relies on |
| FleetSafety.NextKeepsInv | internal/api/handler.go:64-182 | Every step keeps the invariant |
| FleetSafety.Reachable | internal/api/handler.go:64-182 | Every state of every run satisfies the invariant |
| FleetTheorems.AdmissionSafety | internal/backend/pool.go:79-92 | In every reachable state a counter is the number of holders, between zero and the limit, and no request holds two slots |
| FleetTheorems.TotalDepthIsHolders | internal/backend/pool.go:79-92 | In every reachable state the total queue depth is the number of requests holding slots |
| FleetTheorems.ReleasedExactlyOnce | internal/api/handler.go:122-123 | A request has acquired one slot if it is holding or has been served and none otherwise, and has released one exactly if it has been served |
| FleetTheorems.CommitNeedsSlot | internal/api/handler.go:136-182 | The directory changes only by a commit of that request's own blocks, with evidence, on a backend where it holds a slot before and after |
| FleetTheorems.CommitsExactlyOnce | internal/api/handler.go:136-178 | Under every interleaving a request commits exactly once if a first byte of its stream came or its plain response was below 400, and never otherwise |
| FleetTheorems.NeverStuck | internal/api/handler.go:64-182 | A request that is not done always has a step of its own |
| FleetTheorems.AtCapacityMeansAllRefused | internal/api/handler.go:101-121 | A request told that all backends are at capacity saw every candidate of its non-empty ranking unhealthy or full at some moment of its walk |
| FleetTheorems.NoHealthyMeansAllUnhealthy | internal/api/handler.go:64-68 | A request told that no backend is healthy saw every backend unhealthy at some moment of its scan |
| FleetTheorems.FailedSwapMeansInterference | internal/backend/pool.go:80-88 | A failed compare-and-swap means another request acquired or released a slot on that very backend after the load whose value the swap compares against |
| FleetTheorems.ScoresAreBounded | internal/api/handler.go:70-124 | Every snapshot scored in any reachable state scores between minus the penalty weights and the cache-hit weight |
| FleetTheorems.SomethingIsAlwaysRanked | internal/api/handler.go:115-116 | The reply that the scorer could not select a backend is never given |
| FleetTheorems.RankedInputIsSorted | internal/backend/pool.go:171-180 | What a request hands to the ranking is sorted by identifier and all healthy, so that routing agrees with the head of the ranking whenever some queue is below the largest integer |
| FleetTheorems.HealthFollowsProbes | internal/backend/pool.go:257-288 | In a concurrent run, too, a backend's health is the function of its own probe history |
| FleetTheorems.DirectoryFollowsCommits | internal/cacheindex/index.go:64-90 | In a concurrent run a backend's shelf is the history of the commits to it |
| FleetTheorems.FleetNeverOverclaims | internal/cacheindex/index.go:43-59 | In a concurrent run, with collision-free keys, no reading claims more than the best prefix match with the commits to that backend in that namespace |
| FleetTheorems.FleetScan | internal/cacheindex/index.go:43-59 | It claims exactly that as long as at most `capacity` distinct keys were touched there |
| FleetTheorems.FleetOrphanFrontier | internal/cacheindex/index.go:52-89 | At any moment of a run there is one step, a commit, at which all orphans of a backend were last touched |
| FleetTheorems.FleetHomecoming | internal/api/handler.go:138-142 | A conversation committed in a concurrent run is found again by every later request extending it, as long as at most `capacity` distinct keys were touched there since |
| FleetProgress.RetriesAreBounded | internal/backend/pool.go:79-89 | A request's swaps fail at most as often as other requests acquire or release a slot |
| FleetProgress.OwnStepsAreBounded | internal/api/handler.go:64-182 | A request takes at most seven steps per backend and six more, plus two for every slot that others take or give back |
| HandlerRuns.SameSamples | internal/api/handler.go:64-97 | The handler and a run of its request alone rank the very same snapshots |
| HandlerRuns.HandlerIsARun | internal/api/handler.go:29-182 | What the handler does to pool and directory, and its reply, is what steps of that request alone do from the mirrored state |
| HandlerRuns.HandlerContinuesRun | internal/api/handler.go:29-182 | Any run that has led to a mirrored state goes on with events of that request only, to a state that mirrors pool and directory again, with the request done and the verdict replied |

## Left out

- HTTP serving, forwarding, headers, URL building, JSON, YAML and configuration files: an upstream exchange is a chosen outcome, a parsed request is given.
- CacheIndex.Index.Commit: does not model wrap-around of the 64-bit `sequence` field, nor a clock that runs backwards; the time is a given value that never decreases and is never zero.
- Recorder.Recorder.Stamp: does not model wrap-around of the 64-bit sequence number and counters.
- Health.FlapDamping: does not model wrap-around of the two 64-bit transition counters; the 32-bit consecutive counters do wrap.
- Pool.Backend.Probe: probes of one backend follow one another, as its health-check goroutine makes them; overlapping probes of one backend are not modelled. A probe is one step of a run: requests see only the healthy flag, which a probe writes at most once.
- Pool.NewPool: whether a URL is acceptable is given.
- Scorer.ScoreBounds: scores are real numbers, without rounding, infinities other than that of an unhealthy backend, or not-a-number.
- Scorer.Rank: the stable library sort is modelled as a stable insertion sort; with distinct identifiers the result is the only sorted arrangement.
- Tokenizer.BlockHasher.HashPrefix: the block digest is an arbitrary function of the block's bytes; xxhash itself is not modelled.
- Eviction: the confidence heuristics of `PredictCached`, `UsageRatio` and their scoring helpers.
- CacheIndex: `AllUsage`, which is `Usage` for every backend.
- Handler.Server.HandleChat: describes an undisturbed request; what interleaving adds is stated about `Fleet`, which leaves the recorder out. Cleaning the model name before recording is not modelled.
- Fleet.Next: the set of backends, their limits and the registered capacities are fixed for a run, as they are after start-up; a request that ends by a panic is not modelled.
- RadixTree.Tree.Evict: entries with equal access times may be taken in any order, as in the source; which of them go is not stated.
- The web interface and the site.
