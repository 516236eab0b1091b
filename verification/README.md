# Proofs about the DeepSeek V4.1 serving overlay

This project models six parts of the overlay that decide whether an answer is
right, and proves what each of them promises. Every statement is about all
inputs, all interleavings or all runs. `dafny verify dfyconfig.toml` checks the
whole project.

| part | files |
|---|---|
| Engram row store: thread pool, cache, read paths, packed shard, hash-head layout | `PoolProtocol`, `RowCache`, `RowFiles`, `PackedShard`, `RowStore`, `Lookups`, `NumberTheory`, `HeadLayout`, `StrongTest`, `HeadShards` |
| Routed-expert dispatch of the fused MoE | `Routing`, `GroupedTables`, `FusedMoe` |
| Truncated (YOCO) prefill | `KeepPlan`, `YocoLife` |
| Final sliding-window retention | `FinalWindow`, `FinalHits` |
| Output token split, and its streaming form | `TriePattern`, `Placeholders`, `RunDecode`, `WordScan`, `OutputSplit`, `OutputStream` |
| Control-token guard | `ControlGuard` (with `TriePattern`, `WordScan` and `Placeholders`) |

`Wrappers`, `Arithmetic` and `Bytes` hold the shared small change.

**Row store.** The specification of a lookup is one line: the output row of an id
is weight ++ scale if this rank owns the id, and zeros if it does not
(`RowStore.Answer`). The packed shard, the pinned scales, the two plain reads and
the set-associative cache all have to come down to it. The pool that serves the
rows is a state machine whose steps are the code's atomic operations and locked
sections, for one caller at a time, any number of workers and any sequence of
jobs; its invariant ties `remaining_`, `active_` and `next_` to where the threads
are. The cache is a second state machine, in which a lookup that misses reads
outside the lock while others fill the same set. `Lookups.EveryRowAnswered` joins the
two: when run() has returned, each output row of the job was written exactly once and
holds its id's answer.

**Dispatch.** Every tier reads one expert-sorted buffer. A route is an *add*: token,
local expert, weight. What a tier does is a tally, how often it makes each add, and
`Apply` is proved to make each local route once for each time it was routed, and no
sentinel route, if and only if the batch meets a condition on its routing counts that
only the single launch and the legacy tier need (`FusedMoe.Complete`). `EveryTierSameOutput` turns that into the output: each
token's weighted sum over its own local experts. Any order that argsort may give is
allowed for.

**Truncated prefill.** The row plan of a batch and the window clamp are loops over
arrays; the life of a request is a run of prefill chunks and decode steps after a
prefix hit, with a history of the positions it wrote. Safety is that no decoder row
reads a sliding-window position the request itself did not write.

**Final-window retention.** The hold, the boundaries and the free rule are floor and
ceiling arithmetic over a block table that is nulled from below; the masked caching
fills an array in place. The lookup of the next turn is modelled too, to say what
the kept checkpoints are worth.

**Output split and control guard.** Both rest on a trie regex, whose backtracking
matcher is modelled, and on numbered placeholders that are found again because
their prefix ends in a character it has nowhere else. What the split has to mask is said
without the code: the strings taken out are the longest added-token strings of the runs,
and every such string that lies in a run is reached (`OutputSplit.Masks`). A text has only
one such mask (`OutputSplit.OneMask`), and the loops compute it.

## What the proofs found

- `is_prime` rejects 61: base 61 is 0 modulo 61. It accepts every other prime, which
  is why `find_next_prime` always ends (`HeadLayout.PrimeAcceptedUnless61`). Below 1681
  it accepts nothing else (`StrongTest.ExactBelow1681`). From there on it accepts exactly
  the numbers without a divisor up to 40 that pass the strong test for 2, 7 and 61
  (`StrongTest.AcceptedIff`); all of them pass Fermat's test for these bases too.
- The shard's magic word spells `DSV1EN41`, not the `DSV41EN1` of the comments beside
  it (`PackedShard.MagicSpelling`). Writer and reader agree, so nothing breaks.
- `row_store_range` refuses to move the range under pinned scales, but not under an
  attached packed shard. With a shard attached for [lo, hi) and the range moved to
  [lo', hi'), the packed reads that complete are right for every table if and only if
  lo' = lo or nothing is owned (`RowStore.MovedReadsRightIff`), and all of them complete
  inside the shard if and only if the range did not grow (`MovedReadsInsideIff`).
  `RowStore.MovedRangeExample` opens a two-row table, attaches row 0's shard, moves the
  range to row 1 and fetches it: the bytes are not row 1's. The loader sets the range
  before it attaches.
- `shard_range` reports a negative number of heads for some rank if and only if the
  shards before the last would need more heads than there are
  (`HeadShards.NegativeHeadsIff`). The backend's guard also raises when they need
  exactly as many, and is exact for every rank to have a head.
- The single launch is right exactly when no local expert has more routes than the
  temps have rows (`FusedMoe.SingleLaunchIff`). `tokens <= cap` gives that only if the
  experts of one token are distinct; `FusedMoe.RepeatedExpertLost` is the counterexample.
- The plain loop and `map_topk_to_local` differ exactly on ids past the expert map that
  are numbers of local experts (`Routing.LoopAgreesIff`). The legacy tier is right if and
  only if no such id names an expert with more routes than the temps have rows
  (`FusedMoe.LegacyIff`); `FusedMoe.ShortMapExample` is a batch of three tokens that it
  gets wrong.
- KEEP >= window + speculative tokens is what safety needs; the constructor asks for
  one more. Below that some decode step reads a position nobody wrote
  (`YocoLife.SmallKeepIsUnsafe`), and so does a hit above the cap
  (`YocoLife.HitAboveCapIsUnsafe`).
- The hold is tight: one block less and some free reaches a checkpoint's tail
  (`FinalWindow.HoldIsTight`).
- A comment in the final-window cache says that a run from block 0 is a hit even when
  shorter than a window. The lookup returns the longest checkpoint if and only if it does
  not meet, with a peek block and an alignment of several blocks, a cache of such short
  runs only (`FinalHits.LongestIff`); then it loses exactly one alignment step, as in
  `FinalHits.ShortRunExample`. With an alignment of at least a window there are no short
  runs (`FinalHits.AlignedPastWindow`).
- `_truncate` with `max_length` 0 and truncation on the left keeps every id, and a negative
  `max_length` takes that many ids off (`ControlGuard.TruncateKeeps`).

## Model

| member | source | states |
|---|---|---|
| PoolProtocol.ServedAtMostOnce | overlay/row_store.cpp:185-254 | in every reachable state no (job, ticket) pair was served twice, none was served that does not belong to a job already started, and a thread inside drain() holds the job that is running now |
| PoolProtocol.ServedInFullOnReturn | overlay/row_store.cpp:199-208 | whenever run() has returned, every ticket of every job so far was served exactly once, active_ is 0, and no worker, however late it woke, holds a job or a ticket |
| PoolProtocol.NoLostWakeup | overlay/row_store.cpp:198-253 | a blocked caller has a false wait predicate, and a worker asleep with an old generation has the notify_all still to come |
| PoolProtocol.TicketsDrawn | overlay/row_store.cpp:221-232 | one job draws at most chunks + workers + 1 tickets; remaining_ and active_ stay within their bounds |
| PoolProtocol.InvStep | overlay/row_store.cpp:185-254 | every atomic step of caller or worker, spurious wakeups included, keeps the invariant that ties the counters and tickets to the threads' positions |
| PoolProtocol.MeasureDecreases | overlay/row_store.cpp:185-254 | every step other than starting a job or a spurious wakeup lowers one measure, whoever takes it |
| PoolProtocol.SomeoneCanStep | overlay/row_store.cpp:199-206 | while a job is unfinished some thread can take a measure-lowering step: the pool cannot deadlock |
| PoolProtocol.ProgressOnRun | overlay/row_store.cpp:185-254 | the same in every state of every run, with the drop of the measure |
| PoolProtocol.JobEnds | overlay/row_store.cpp:185-254 | under every schedule a job of c chunks on w workers takes at most 9c + 10w + 9 steps of all threads together, and five more for each spurious wakeup |
| PoolProtocol.RowInOneTicket | overlay/row_store.cpp:189-227 | for any chunk size, the tickets' row ranges cover each row of the work once and nothing past it |
| PoolProtocol.RowsWrittenOnce | overlay/row_store.cpp:185-233 | when run() has returned, each output row of each job so far was written exactly once, by a step that served that job |
| Lookups.EveryRowAnswered | overlay/row_store.cpp:361-369 | for every interleaving of the pool's threads and of the cache's lookups, each output row of a finished job was written once and holds its id's answer |
| RowFiles.WindowFits | overlay/row_store.cpp:93-96 | the page-aligned window fits the 8192-byte buffer at every offset if and only if the read is at most 4097 bytes |
| RowFiles.ReadFrom | overlay/row_store.cpp:88-102 | a row-sized read returns exactly the requested bytes if the file is resident or pread delivers all of them, and aborts otherwise |
| RowFiles.CopyRange | overlay/row_store.cpp:291-306 | the chunked copy ends; on success the buffer is exactly file bytes [start, end), for every pattern of short reads, and it fails only where some pread returned 0 or less |
| RowFiles.PinScales | overlay/row_store.cpp:275-311 | pinned scales are the scale bytes of the owned rows, an empty range pins nothing, and a nonempty one fails only if a pread did |
| PackedShard.BlockRecord | scripts/pack_engram.py:105-110 | record k of an interleaved block is weight k followed by scale k |
| PackedShard.ReadChunk | scripts/pack_engram.py:97-110 | a chunk is written if and only if both reads are complete, and then holds the records of its rows |
| PackedShard.PackLayer | scripts/pack_engram.py:71-121 | for any chunk size the file is header + records of rows [lo, hi); it aborts for a bad range, and otherwise only for a short read; a complete target is left alone |
| PackedShard.WrittenShardAccepted | overlay/row_store.cpp:388-417 | a shard pack_layer wrote aborts exactly when its header read fails or comes short; otherwise it is attached exactly when layer, range and table size are the store's, and ignored if not |
| PackedShard.AttachIs | overlay/row_store.cpp:388-417 | for any file at all: fatal on a short header, ignored unless its first 48 bytes are the six header words of this layer, range, table and row size, fatal if it is too short for the range, and attached otherwise |
| PackedShard.MagicSpelling | scripts/pack_engram.py:36 | the eight magic bytes are DSV1EN41 |
| RowCache.FoundIsTrue | overlay/row_store.cpp:112-121 | a probe that finds a row finds the true row, if the slots are labelled truly |
| RowCache.InsertKeepsLabels | overlay/row_store.cpp:139-146 | an insertion keeps every nonzero key on a slot of its own set that holds exactly its row |
| RowCache.RowSurvives | overlay/row_store.cpp:139-146 | an inserted row is still found after any insertions that put fewer than `ways` rows into its set |
| RowCache.RowEvicted | overlay/row_store.cpp:139-146 | the `ways`-th later insertion into the set takes its slot, whatever goes to other sets in between: the bound is exact |
| RowCache.BudgetKept | overlay/row_store.cpp:345-354 | the bytes row_store_stats reports, 264 + 8 for each way and 1 for each set, never exceed the budget, and one more set would |
| RowCache.ConcurrentLookups | overlay/row_store.cpp:109-147 | under any interleaving of lookups with misses read outside the lock, labels stay true, every finished lookup returned the true row, and hits + misses equals the lookups once all are over |
| RowStore.PackedRead | overlay/row_store.cpp:124-128 | record id - lo of the shard is the table's row id, and lies inside the file |
| RowStore.PackedReadAfterRangeMoved | overlay/row_store.cpp:124-128 | after the range moved under an attached shard, a packed read returns the row as far off as the start of the range moved |
| RowStore.MovedReadsRightIff | overlay/row_store.cpp:419-432 | completed packed reads of owned ids are right for every table if and only if the start of the range did not move, or nothing is owned |
| RowStore.MovedReadsInsideIff | overlay/row_store.cpp:419-432 | every packed read lies inside the shard if and only if the range did not grow |
| RowStore.MovedRangeExample | overlay/row_store.cpp:419-432 | a store on which the attach and the move are accepted, the fetch completes, and the fetched bytes are not the row's |
| RowStore.Store.Open | overlay/row_store.cpp:315-359 | a fresh store owns the whole table, with ways clamped to 1..16, the sets its budget pays for (none when resident), and an empty cache |
| RowStore.Store.Range | overlay/row_store.cpp:419-432 | which ranges are refused, that scales pinned afterwards are those of the new range, and exactly when a truthful store stays truthful |
| RowStore.Store.AttachPacked | overlay/row_store.cpp:385-417 | for any shard, attached only if it begins with this store's six header words and holds the whole record of every owned id; a shard pack_layer wrote is attached only where every packed read is right |
| RowStore.Store.Probe | overlay/row_store.cpp:112-121 | the locked search finds the first way labelled with the id and counts the hit |
| RowStore.Store.Fill | overlay/row_store.cpp:139-146 | the locked insertion writes the cursor's slot and moves the cursor, in place |
| RowStore.Store.ReadRow | overlay/row_store.cpp:124-137 | it succeeds if and only if the preads it needs are complete; a packed read gives the record at its place in the shard, the other paths weight ++ scale of the id; with the shard in place all give the row |
| RowStore.Store.FetchRow | overlay/row_store.cpp:109-147 | it succeeds if and only if the row is cached or its reads complete; a hit returns the cached row and changes only hits, a miss returns what was read, counts itself and inserts it; a truthful store returns the true row and stays truthful |
| RowStore.Store.ServeOne | overlay/row_store.cpp:152-168 | one id's output is the specified answer of a truthful store; it aborts if and only if the id is past the table, or owned, not cached and its reads come short; foreign and negative ids give zeros |
| RowStore.Store.Serve | overlay/row_store.cpp:149-170 | exactly the rows [begin, end) are written, each with its id's answer in a truthful store, hits + misses grows by the owned ids among them, and it does not abort if every id is inside the table and its reads complete |
| NumberTheory.Fermat | overlay/engram_layout.py:23-26 | a^(p-1) is 1 modulo a prime p that does not divide a |
| NumberTheory.SquareRootsOfOne | overlay/engram_layout.py:27-30 | modulo a prime only 1 and -1 square to 1 |
| NumberTheory.PrimeAbove | overlay/engram_layout.py:36-40 | there is a prime above every number |
| HeadLayout.IsPrime | overlay/engram_layout.py:12-33 | the loops over d, r and x answer Accepted, which StrongTest.AcceptedIff pins |
| HeadLayout.PrimeAcceptedUnless61 | overlay/engram_layout.py:12-33 | is_prime accepts a prime if and only if it is not 61 |
| HeadLayout.Rejects61 | overlay/engram_layout.py:23-32 | is_prime rejects 61 |
| StrongTest.AcceptedIff | overlay/engram_layout.py:12-33 | is_prime accepts exactly the numbers without a divisor from 2 to 40 other than themselves that, above 40, pass the strong test for 2, 7 and 61, stated over any odd d and r with n - 1 = d * 2^r |
| StrongTest.ExactBelow1681 | overlay/engram_layout.py:12-33 | below 41 * 41 it accepts exactly the primes but 61 |
| StrongTest.AcceptedPassesFermat | overlay/engram_layout.py:23-32 | every accepted number above 40 has no divisor up to 40, and a^(n-1) is 1 modulo it for a = 2, 7, 61 |
| HeadLayout.FreeAbove | overlay/engram_layout.py:36-40 | above any start there is an accepted number outside any finite seen set |
| HeadLayout.FindNextPrime | overlay/engram_layout.py:36-40 | the search always ends, at the least accepted unseen number above the start |
| HeadLayout.GreedyIsConsecutive | overlay/engram_layout.py:43-60 | sizes taken greedily are increasing and are all the accepted, unseen numbers from vocab_size up to the last of them |
| HeadLayout.GreedyUnique | overlay/engram_layout.py:43-60 | a greedy run of given length is determined by where it starts |
| HeadLayout.GreedyExists | overlay/engram_layout.py:36-60 | there are greedy runs of every length: the search never runs out |
| HeadLayout.OneOrder | overlay/engram_layout.py:55-59 | the heads of one n-gram order are a greedy run from vocab_size on |
| HeadLayout.HeadSizes | overlay/engram_layout.py:43-60 | although the search restarts for every order, the sizes of all orders are one greedy run, and seen gains exactly them |
| HeadLayout.LayerHeadSizes | overlay/engram_layout.py:84-95 | the layer's sizes are its own stretch of the one greedy run over all accepted numbers from vocab_size on: no size repeats across orders and layers |
| HeadShards.RankIsShard | overlay/engram_layout.py:63-81 | the ranks of a TP x DP grid number the shards 0 .. tp*dp - 1 and get those shards' ranges |
| HeadShards.ShardIsRank | overlay/engram_layout.py:77 | each shard number belongs to one rank of the grid |
| HeadShards.BackendAgrees | overlay/engram_file_backend.py:253-256 | the backend's unclamped vocab range is shard_range's |
| HeadShards.EveryRowOwnedOnce | overlay/engram_layout.py:74-81 | the shards are contiguous from 0 to the end of the table, and every row is owned by exactly one |
| HeadShards.OwnHeadsOwned | overlay/engram_layout.py:74-81 | a rank owns every row of each of the heads [headStart, headStart + localHeads) |
| HeadShards.HeadOwnedOnce | overlay/engram_layout.py:74-81 | every head lies in exactly one rank's [headStart, headStart + localHeads), and has sizes[head] rows |
| HeadShards.GuardIffEveryRankHasHead | overlay/engram_file_backend.py:247-252 | the backend's guard passes if and only if every rank has at least one head |
| HeadShards.NegativeHeadsIff | overlay/engram_layout.py:74-81 | some rank is reported a negative number of heads if and only if the shards before the last would need more heads than there are |
| HeadShards.NegativeLocalHeads | overlay/engram_layout.py:78-81 | five heads on four ranks leave the last with -1 heads |
| HeadShards.ColumnsAreOwn | overlay/engram_file_backend.py:433-439 | a rank's columns are the ids of its own heads, from headStart on, and then -1 |
| HeadShards.ColumnsReassemble | overlay/engram_file_backend.py:433-439 | side by side, the ranks' padded columns are the original id columns and then only -1 |
| Routing.LoopAgreesIff | overlay/exl3.py:982-995 | the loop and map_topk_to_local give an id the same expert if and only if it is not a local number past the end of the map |
| Routing.MapToLocalIff | overlay/exl3.py:973-991 | an id goes to local expert e if and only if it is e, or is inside the map and mapped to e |
| Routing.CountsCut | overlay/exl3.py:1652-1662 | for any order argsort gives, the histogram cuts the sorted buffer into the experts' routes, sentinels last |
| Routing.CountAtMostTokens | overlay/exl3.py:1678-1683 | with distinct experts within each token no local expert has more routes than there are tokens |
| Routing.OutputOfPermutation | overlay/exl3.py:1655-1657 | the order of the adds does not change a token's output |
| GroupedTables.TablesPartition | overlay/exl3.py:1343-1368 | live segments follow each other without a gap from row 0 to num_rows, each of 1..tile rows inside one expert; dead segments have 0 rows |
| GroupedTables.SegmentsFit | overlay/exl3.py:1348-1351 | num_segs fits in max_segs and num_rows in rows_cap |
| GroupedTables.RowTables | overlay/exl3.py:1356-1367 | the row tables do not depend on the tile size, and a live row's source needs no clamp |
| GroupedTables.SourceInBounds | overlay/exl3.py:1356-1358 | a live row's source lies inside the sorted buffer |
| GroupedTables.FatRowsExact | overlay/exl3.py:1343-1368 | the live fat rows hold each route of an expert above the cap once for each time it was routed, and no other |
| GroupedTables.GateUp | overlay/exl3.py:1427-1443 | the blocks together run every fat row's own expert on that row |
| GroupedTables.Down | overlay/exl3.py:1444-1455 | whatever tiles the first kernel used, each fat row's result is added once to its token with its weight |
| GroupedTables.GroupedFat | overlay/exl3.py:1371-1455 | the three launches make the routes of exactly the experts above the cap |
| FusedMoe.LaunchThin | overlay/exl3.py:1678-1700 | one launch makes the routes of exactly the experts within the cap, and no sentinel route |
| FusedMoe.SingleLaunchIff | overlay/exl3.py:1678-1683 | a single launch makes every local route if and only if no local expert's count exceeds the temp rows |
| FusedMoe.RepeatedExpertLost | overlay/exl3.py:1678-1683 | one token naming an expert twice, with temps of one row, loses its routes |
| FusedMoe.SortedFat | overlay/exl3.py:1056-1074 | walking the slices makes the routes of exactly the experts above the cap |
| FusedMoe.RowTile | overlay/exl3.py:1598-1623 | one tile moves every expert on by up to a tile of rows, if no bucket of it exceeds the temp rows, and adds no row twice |
| FusedMoe.RowTiles | overlay/exl3.py:1571-1623 | the tiles are ceil(max / temp rows) slices of each expert, none with more rows than the temps, and make every local route |
| FusedMoe.LargeTileLoses | overlay/exl3.py:1588 | a bucket larger than the temps is lost: the launch makes none of its routes |
| FusedMoe.PythonLoop | overlay/exl3.py:998-1037 | over the distinct ids in any order, the loop makes the routes of the chosen experts as it understands the ids, and no others |
| FusedMoe.LegacyIff | overlay/exl3.py:1763-1817 | thin experts from the kernel and fat ones from the loop make every local route if and only if no id past the expert map names an expert above the cap |
| FusedMoe.Apply | overlay/exl3.py:1626-1817 | whichever branch is taken, single launch, thin only, row tiles, grouped, batched, sorted or legacy, each local route is made exactly as often as it was routed and nothing else, if and only if the batch is complete: counts within the temps for a single launch, no such id for the legacy tier; row tiles are launched for every fat batch that asks for them and fit the temps |
| FusedMoe.DistinctIsComplete | overlay/exl3.py:1678-1683 | distinct experts within every token make a batch that fits the temps complete |
| FusedMoe.ShortMapExample | overlay/exl3.py:1802-1815 | a batch of three tokens that the legacy tier gets wrong |
| FusedMoe.EveryTierSameOutput | overlay/exl3.py:1626-1817 | whichever branch made the adds and in whatever order, each token's output is the weighted sum over its own local experts |
| KeepPlan.BuildKeepPlan | overlay/dsv41_yoco.py:153-184 | the plan holds for each request a suffix of its rows, kept by the stated rule, with its bound and placeholder flag; compact_qsl are the prefix counts |
| KeepPlan.Increasing | overlay/dsv41_yoco.py:145-184 | keep_idx is strictly increasing across the batch |
| KeepPlan.KeptIff | overlay/dsv41_yoco.py:157-161 | a row of the batch is kept if and only if its request is not cut, it is at or above N - KEEP, or it is the last row |
| KeepPlan.LastRowKept | overlay/dsv41_yoco.py:157-161 | every request keeps at least one row, and its last one |
| KeepPlan.PositionsOfPart | overlay/dsv41_yoco.py:172-181 | a kept row is a placeholder if and only if it lies below its lower bound, which is N - KEEP or 0 |
| KeepPlan.CompactOrdered | overlay/dsv41_yoco.py:165-182 | compact_qsl never decreases and stays within keep_idx |
| KeepPlan.Scatter | overlay/dsv41_yoco.py:299-302 | the kept rows are put back where the plan took them, and every other row is zero |
| KeepPlan.GatherThenScatter | overlay/dsv41_yoco.py:299-314 | a gather and the scatter after it restore kept rows and zero the rest |
| KeepPlan.ClampShows | overlay/dsv41_yoco.py:187-210 | a clamped row shows exactly the slots of positions max(start, lower)..pos, then -1 |
| KeepPlan.ClampEmpty | overlay/dsv41_yoco.py:187-210 | a placeholder's empty row stays empty |
| KeepPlan.ClampIdempotent | overlay/dsv41_yoco.py:187-210 | clamping twice is clamping once |
| KeepPlan.ClampSwaRows | overlay/dsv41_yoco.py:195-210 | the in-place gather and copy clamp every row of the table |
| YocoLife.CappedHitIsLargest | overlay/dsv41_yoco.py:90-101 | capped_hit is the largest aligned length that with its peek is cached and within the cap |
| YocoLife.MaxHitIff | overlay/dsv41_yoco.py:90-94 | a positive hit is within the cap if and only if it leaves the last KEEP tokens and at least one |
| YocoLife.RetryRecomputes | overlay/dsv41_yoco.py:104-108 | a retry whose boundary is cached recomputes at most KEEP + peek + alignment - 1 tokens |
| YocoLife.RetryHitsBoundary | overlay/dsv41_yoco.py:104-108 | that retry hits at the aligned reachable boundary |
| YocoLife.ReadsOnlyOwnWrites | overlay/dsv41_yoco.py:84-94 | for any hit within the cap, any chunking and any decode steps, no decoder window read touches a position the request did not write |
| YocoLife.PrefillStoresOnce | overlay/dsv41_yoco.py:439-443 | over any chunking the stored rows are exactly positions max(0, N - KEEP)..N, each once, in order |
| YocoLife.PlanStores | overlay/dsv41_yoco.py:427-443 | the non-placeholder rows of a request in any batch's plan are the ones its life stores |
| YocoLife.SmallKeepIsUnsafe | overlay/dsv41_yoco.py:84-86 | for every KEEP below window + speculative tokens, some decode step reads a position nobody wrote |
| YocoLife.HitAboveCapIsUnsafe | overlay/dsv41_yoco.py:90-94 | for every hit above the cap, the next row reads a position nobody wrote |
| FinalWindow.BoundaryLag | overlay/patch_swa_final_window.py:75-97 | every final checkpoint is whole blocks and lags C by at most alignment + peek + KEEP - 1 |
| FinalWindow.NewestBoundary | overlay/patch_swa_final_window.py:87-97 | a final checkpoint is complete with its peek block, and the newest aligned one that is, or the newest that any continuation may use |
| FinalWindow.WindowBlocksAre | overlay/patch_swa_final_window.py:75-84 | a window needs the fewest blocks that hold window - 1 tokens |
| FinalWindow.SkippedIff | tests/fixtures/dsv41_yoco/vllm/v1/core/single_type_kv_cache_manager.py:668-684 | a block is skipped if and only if all its tokens lie below the window and the retained tokens |
| FinalWindow.HoldCovers | overlay/patch_swa_final_window.py:75-84 | with the hold, a free at C does not reach the tail of any final checkpoint, with or without peek, for any KEEP and any scheduler alignment at least the group's |
| FinalWindow.HoldIsTight | overlay/patch_swa_final_window.py:75-84 | with one block less of hold, a free reaches a checkpoint's tail by exactly one block, for every group with a peek block |
| FinalWindow.AdmissionCovers | overlay/patch_swa_final_window.py:228-230 | the hold keeps between 0 and ceil(hold/bs) more blocks than stock |
| FinalWindow.RequestBlocks.constructor | tests/fixtures/dsv41_yoco/vllm/v1/core/single_type_kv_cache_manager.py:240-290 | a prefix hit, with any externally computed tokens, leaves nulls where the free rule skips at the computed count, and the found blocks above |
| FinalWindow.RequestBlocks.NullBelow | tests/fixtures/dsv41_yoco/vllm/v1/core/single_type_kv_cache_manager.py:620-645 | everything below the given block is null afterwards, and the blocks handed back are exactly the held ones, from the top down |
| FinalWindow.RequestBlocks.RemoveSkipped | tests/fixtures/dsv41_yoco/vllm/v1/core/single_type_kv_cache_manager.py:647-684 | the blocks below the window less the retained tokens are freed, and no others |
| FinalWindow.FinalTailsHeld | overlay/patch_swa_final_window.py:75-84 | after any frees at counts up to C, the whole tail of every final checkpoint at or above the initial prefix hit is still allocated |
| FinalWindow.RequestBlocks.TailMask | overlay/patch_swa_final_window.py:131-134 | the mask is true exactly on the unhashed blocks of the tails |
| FinalWindow.RequestBlocks.CacheFullBlocks | tests/fixtures/dsv41_yoco/vllm/v1/core/block_pool.py:259-297 | exactly the masked held blocks get their own hash |
| FinalWindow.RequestBlocks.SelectTails | overlay/patch_swa_final_window.py:111-130 | the hits are the checkpoints whose whole tail is allocated, and lo..hi spans their tails |
| FinalWindow.RequestBlocks.FinalCache | overlay/patch_swa_final_window.py:100-145 | exactly the unhashed blocks in the union of the returned hits' tails are hashed, never a null block and never past the computed blocks |
| FinalWindow.TailsHashed | overlay/patch_swa_final_window.py:117-145 | after the caching every block of the window before a returned hit, and its peek block, has a hash |
| FinalHits.AlignedInTokens | tests/fixtures/dsv41_yoco/vllm/v1/core/single_type_kv_cache_manager.py:979-982 | a length is aligned in tokens if and only if it is aligned in blocks |
| FinalHits.PopToAligned | tests/fixtures/dsv41_yoco/vllm/v1/core/single_type_kv_cache_manager.py:1002-1007 | popping ends at the largest aligned length |
| FinalHits.Scan | tests/fixtures/dsv41_yoco/vllm/v1/core/single_type_kv_cache_manager.py:970-996 | the right-to-left scan stops at the rightmost full run, or at block 0 with the run that starts there |
| FinalHits.FindLongestHit | tests/fixtures/dsv41_yoco/vllm/v1/core/single_type_kv_cache_manager.py:926-1021 | the hit is a cached checkpoint, no smaller than any other or, for short runs from block 0 with a peek block and a coarser alignment, at most one alignment step smaller, and then exactly one |
| FinalHits.LongestIff | overlay/patch_swa_final_window.py:121 | no checkpoint is longer than the hit if and only if the lookup does not meet such short runs only |
| FinalHits.ShortRunExample | overlay/patch_swa_final_window.py:121 | five cached blocks that hold a checkpoint of four, of which the lookup returns two |
| FinalHits.AlignedPastWindow | overlay/patch_swa_final_window.py:121 | with an alignment of at least a window there are no short runs |
| FinalHits.FinalCheckpointIsHit | overlay/patch_swa_final_window.py:87-97 | once its tail is cached, a request that shares the prefix hits a final checkpoint or better, and a short run at worst one alignment step below |
| FinalHits.CachedTailIsHit | overlay/patch_swa_final_window.py:87-145 | from the free to the next turn: while the hashes are in the cache, a request that shares the prefix hits each returned checkpoint or better, and a short run at worst one alignment step below |
| FinalHits.ContinuationCanUse | overlay/patch_swa_final_window.py:87-97 | any continuation with N >= T can use the YOCO checkpoint under capped_hit |
| FinalHits.PredictionUsesBoundaries | scripts/swa_final_window_turns.py:109-123 | predicted_hit is the best of the observed hit and the patch's boundaries for C = T - 1 that the hit cap admits |
| TriePattern.FromWordsIs | overlay/patch_output_token_split.py:77-82 | the trie holds exactly the words |
| TriePattern.PatternMatches | overlay/patch_output_token_split.py:84-95 | a backtracking matcher tries exactly the words the text starts with, the longest first |
| TriePattern.LongestWord | overlay/patch_output_token_split.py:75-95 | the pattern matches the longest added-token string at a position, or nothing if none starts there |
| Placeholders.ParseDecimal | overlay/patch_output_token_split.py:112 | the number of a placeholder is read back |
| Placeholders.NoMarkerInText | overlay/patch_output_token_split.py:141-142 | no placeholder starts in prefix-free text, even right before a real one |
| Placeholders.SplitRender | overlay/patch_control_token_injection.py:144-147 | splitting a text of prefix-free pieces and placeholders gives back pieces and numbers |
| Placeholders.RestoreRender | overlay/patch_output_token_split.py:109-115 | a string of prefix-free text and whole placeholders is restored, unless the result holds the prefix |
| Placeholders.RestoreIff | overlay/patch_output_token_split.py:109-115 | for prefix-free texts and whole placeholders, the result is None if a number is unknown or the prefix is in what comes out, and the restored string otherwise |
| Placeholders.RestoredIsFree | overlay/patch_output_token_split.py:113-114 | whatever string is restored, the prefix is nowhere in it |
| RunDecode.PiecesOfRun | overlay/patch_output_token_split.py:148-166 | ordinary ids alone are one run |
| RunDecode.PiecesAround | overlay/patch_output_token_split.py:148-166 | an added token is a piece of its own between the pieces of the ids before it and after it |
| WordScan.ScanKeepsText | overlay/patch_output_token_split.py:180 | scan.sub loses nothing: texts and words in order are the text |
| WordScan.ScanComplete | overlay/patch_output_token_split.py:180 | where an added-token string starts, the character is part of what the scan takes out |
| WordScan.ScanTakesLongest | overlay/patch_output_token_split.py:180 | every string the scan takes out is the longest added-token string at its place |
| WordScan.AnyWordIff | overlay/patch_output_token_split.py:146 | scan.search finds something if and only if some stretch of the text is an added-token string |
| OutputSplit.MaskKeepsText | overlay/patch_output_token_split.py:178-183 | the masked parts put together are the first len(text) characters of the decode |
| OutputSplit.MaskedInRun | overlay/patch_output_token_split.py:178-183 | every masked string lies wholly within one run of ordinary tokens |
| OutputSplit.MaskComplete | overlay/patch_output_token_split.py:178-183 | the first character of every added-token string that lies within one run of ordinary tokens is part of a masked string |
| OutputSplit.MaskTakesLongest | overlay/patch_output_token_split.py:178-183 | every masked string is the longest added-token string at its place in its run |
| OutputSplit.OneMask | overlay/patch_output_token_split.py:178-183 | a text has one mask only: longest strings in runs, and no string of a run left out |
| OutputSplit.Layout | overlay/patch_output_token_split.py:148-166 | runs, layout and pieces are the run-wise decode of the ids |
| OutputSplit.MaskPieces | overlay/patch_output_token_split.py:170-183 | the loop numbers the masked strings in order of appearance and stops at the end of the text |
| OutputSplit.Split | overlay/patch_output_token_split.py:144-186 | it is Some if and only if the prefix is not in the text, the text is a prefix of the run-wise decode and ordinary tokens of one run spell an added-token string in it, and then it is the mask of the text with its strings numbered in order |
| OutputSplit.RestoreMask | overlay/patch_output_token_split.py:109-186 | restore(mask(text)) is text for every text and id list that is masked |
| OutputSplit.SplitterMarkerGood | overlay/patch_output_token_split.py:141-142 | the splitter's prefix has no proper border, whatever its hex digits |
| OutputStream.PipeInSpan | overlay/patch_output_token_split.py:287-289 | a pipe lies in an added token if and only if a recorded span covers it |
| OutputStream.InAddedIff | overlay/patch_output_token_split.py:287-289 | a position is an added token's if and only if some added token's text lies there in the decode |
| OutputStream.HeldIff | overlay/patch_output_token_split.py:303-307 | an added token is held back if and only if one with a pipe starts at or after what is streamed |
| OutputStream.Replace | overlay/patch_output_token_split.py:309-324 | the find loop hides exactly the pipes outside the added tokens and counts them |
| OutputStream.Overlay | overlay/patch_output_token_split.py:294-305 | the loop over the spans finds the added tokens' characters, the unfinished spans and whether one is held back, and stops if and only if some span and the text differ |
| OutputStream.AgreesIff | overlay/patch_output_token_split.py:299-301 | span and text agree if and only if every character of the call inside the span is the span's |
| OutputStream.Stream.FeedIds | overlay/patch_output_token_split.py:277-289 | run, end and spans follow the run-wise decode, and the loop stops if and only if the streamed text is ahead of an added token |
| OutputStream.Stream.Hide | overlay/patch_output_token_split.py:272-324 | only pipes change and each change is counted; hiding stays active if and only if it was, the ids keep up, U+FDD0 is not in the text and every open span agrees with it; in step it hides exactly the ordinary pipes unless an added token is held back |
| OutputStream.HideAll | overlay/patch_output_token_split.py:253-324 | over any stream in step, hiding never stops, no character of an added token changes, and un-hiding the deltas gives the text |
| OutputStream.TokenCallInStep | overlay/patch_output_token_split.py:272-289 | a call with one token, before and after which the text is what the ids decode to, is in step |
| OutputStream.AddedIsStable | overlay/patch_output_token_split.py:277-289 | whether a decoded character is an added token's does not change as ids come in |
| OutputStream.UnhideOnlyHides | overlay/patch_output_token_split.py:350-364 | un-hiding undoes any hiding of a text without U+FDD0 |
| ControlGuard.Guard.MarkerFor | overlay/patch_control_token_injection.py:114-121 | a token gets one number for good, and its number names it |
| ControlGuard.Guard.Mark | overlay/patch_control_token_injection.py:111-121 | the marked text is the scanned text with each added-token string replaced by its marker |
| ControlGuard.MarkedRenderRebuilds | overlay/patch_control_token_injection.py:144-155 | a render of marked template text and plain request text splits into exactly the template's marks and rebuilds the prompt |
| ControlGuard.EncodeSegments | overlay/patch_control_token_injection.py:170-182 | the batch's encodings end up with their own texts, with the control ids between |
| ControlGuard.DirtyIff | overlay/patch_control_token_injection.py:156 | a prompt is dirty if and only if a stretch of a text between the marks is an added-token string |
| ControlGuard.MakeGuard | overlay/patch_control_token_injection.py:91-94 | a tokenizer without added tokens is an error |
| ControlGuard.Encode | overlay/patch_control_token_injection.py:144-168 | which outcome each prompt gets: an error for an unknown marker or a different render; the stock call if and only if no stretch of a text between the marks is an added-token string; segment ids otherwise |
| ControlGuard.ControlIdsAreTemplate | overlay/patch_control_token_injection.py:170-182 | the added-token ids of a guarded prompt are exactly the template's, in order |
| ControlGuard.GuardedDecodes | overlay/patch_control_token_injection.py:170-182 | a guarded prompt decodes back to the prompt |
| ControlGuard.EncodeRender | overlay/patch_control_token_injection.py:144-182 | for every marked render: if some stretch of request text is an added-token string, the ids before truncation have exactly the template's control ids as added ids and decode to the prompt; otherwise the prompt takes the stock path |
| ControlGuard.TruncateKeeps | overlay/patch_control_token_injection.py:193-204 | every id stays without a limit, with truncation off or within the limit; else max_length ids from the side asked for stay if and only if max_length is not 0 or the side is the right, and a negative one takes off that many |
| ControlGuard.GuardMarkerGood | overlay/patch_control_token_injection.py:96-97 | the guard's prefix has no proper border, whatever its hex digits |

## Left out

- PoolProtocol.InvStep: atomic operations and locked sections interleave sequentially consistently; weak memory order, counters past 2^64 and the pool's destructor are not modelled.
- RowStore.Store.FetchRow: the code of one thread; what other threads do to the cache between its two locked sections is in RowCache.ConcurrentLookups and Lookups.EveryRowAnswered.
- RowStore.Store.AttachPacked: for a shard from elsewhere the verdict is stated, not that its records are right; the code attaches such a file unread. A failing fstat, which aborts, is not modelled.
- RowStore.Store.Open: a file that cannot be opened, a table beyond the file and failed mappings abort the process.
- HeadLayout.PrimeAcceptedUnless61: about primes; a composite of 1681 or more is accepted exactly when it has no divisor up to 40 and passes the strong test for 2, 7 and 61 (StrongTest.AcceptedIff). Which composites do is not computed, so the head sizes are proved to be the accepted numbers, not the primes.
- FusedMoe.Apply: a layer without local experts is not modelled.
- FusedMoe.SortedFat: apply_exl3_batched_fat walks the same slices with other kernels; the two share this method.
- FusedMoe.LaunchThin: the kernel's contract (a bucket within the temp rows is run, a larger one and the sentinel are skipped) is taken from the comments.
- FusedMoe.EveryTierSameOutput: exact sums; the half-precision weights and the rounding of each kernel are not modelled.
- FinalHits.FindLongestHit: a window of one token is excluded (no block is needed then); the lookup is for one cache group, and a block's hash is either cached or not.
- FinalWindow.RequestBlocks.FinalCache: the block pool's hash table, events and reference counts are not modelled; a block's own hash field stands for them.
- Lookups.EveryRowAnswered: a run in which a read fails or an id lies past the table ends in an abort and has no returned state; the rows' bytes are written in one step, as serve's copies are private to the ticket's thread.
- Placeholders.RestoreRender: a placeholder that a parser cut inside its prefix is not claimed to be noticed.
- OutputSplit.Split: which added-token strings the splitter looks for (the nonempty ones without white space around them) is a parameter.
- OutputStream.HideAll: for streams whose text so far is a prefix of the run-wise decode after each call, no longer than the decode up to each added token of the next, and without U+FDD0; otherwise Stream.Hide says that only pipes change, and when hiding stops.
- ControlGuard.GuardedDecodes: for a base encoder that the run-wise decode inverts and that emits no added id.
- ControlGuard.MarkedRenderRebuilds: for a prompt that does not hold the random nonce.
- ControlGuard.Encode: `\d` also matches digits outside ASCII; the marker model reads ASCII digits only.
- CUDA and Triton kernels, EXL3 decoding, Hadamard steps and FP8/FP16 rounding: an expert is an uninterpreted function.
- vLLM's coordinator, scheduler, parser engine and chat template: only the contracts the code relies on appear.
- The patch scripts' anchors and idempotence, environment parsing, logs and diagnostics, benchmarks, launch scripts and HTTP clients: plumbing.
- decoder_boundary's configuration checks, the staging buffers and Work objects of the file backend, and reprefilled_own: easy members.
- File system behaviour beyond a read returning a prefix of what was asked for, or failing.
