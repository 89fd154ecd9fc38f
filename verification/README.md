# Verified model of animaksm

A Dafny 4.11 model of the two hard parts of animaksm: the deduplicating swap proxy and
the KSM governor. `dafny verify dfyconfig.toml` checks everything.

**The swap engine.** A page engine keeps five structures in step: a fingerprint index with
32-bit reference counts, LRU stamps and a Bloom pre-check; a page store; a translation
table; and a slot allocator with a free queue. It promises to behave like a flat block
device. `Engines` gives each call as a function on values; `ProxyEngines`, `DedupTables`,
`BloomFilters`, `Backend` and `BlockDevice` are the mutable objects of the source, each
method proved to compute exactly that function; all theorems are about runs of those
functions. The page hash is an arbitrary function throughout, collisions included.

**The flat-device promise is not kept in general.** Two kinds of write break it, and no other call does.

- `EngineSteps.StaleInsert`: an evicted page's translation still names its fingerprint. When that
  fingerprint is tracked again in another slot, releasing the old translation goes by fingerprint alone
  and frees the new slot (`crates/swap-proxy/src/main.rs:166-183`). `EvictionTrace.EvictionLosesPage` is
  a six-call run that reads the wrong page, for any filter, any store of three slots or more and any hash
  telling its three pages apart; the same run as block requests
  is `RequestTrace.SmallTableIsNoDisk`.
- `EngineSteps.WrapsCount`: a write shares a stored page whose 32-bit count is at its maximum, so the
  count wraps to zero (`crates/swap-proxy/src/dedup.rs:187-189`) and a following release frees a slot that
  its sharers still map. It needs 2^32 - 1 copies of one page, on a device just short of 16 TiB, and neither
  a larger table nor comparing slots helps. `CountTrace.WrapLosesPage` is such a run.

A caller can evaluate both before the call. The model keeps the code as it is and settles when it is right:

- `Exactness.InvariantExactlyKept`: a call keeps the ownership invariant if and only if it is neither.
- `Exactness.HarmfulExactly`: after any run without such a step, a call leads some harmless continuation
  to a wrong read if and only if it is such a step; `RequestExactness.HarmfulRequestExactly` says so of
  block requests.
- `Refinement.RefinesFlatDevice`: runs without such a step are flat-device runs.
- `Refinement.AmpleTableRefines`: with as many table entries as slots only a wrapping count remains.
- `Refinement.CheckedReleaseRefines`: so too with a release that also compares slots (`SlotChecked`, not
  in the source), whatever the table size.
- `Refinement.SmallRunsRefine`: on fewer than 2^32 - 1 different offsets no count wraps, so there the two
  theorems before need no further hypothesis on the run.

**Block requests.** `Frontend` lifts pages to sector requests with alignment checks and partial
failure; `RequestRuns` shows whole runs of requests and passthrough toggles to be served as by a plain
disk, a function from addresses to bytes. An engine starts in passthrough
(`crates/swap-proxy/src/main.rs:151`), where every page has a slot of its own and no step is harmful
(`PassthroughRuns`); the source turns it off only in its dry-run simulation
(`crates/swap-proxy/src/main.rs:633`) and its tests. The toggles in a run are what brings deduplication
and eviction into play. `SectorRequests` states the requests as the driver issues them, in sectors.

**The governor.** `Ksm` is the register file with its clamping writer, snapshot and restore, over
any kernel that may refuse any write; `GovernorMachine` is the tick with hysteresis, cooldown,
stabilization and profit cut, on an explicit clock with one reading of it per tick. `Governors` and
`KsmControllers` are the mutable objects proved against them; `GovernorRuns`, `GovernorLaws` and
`Convergence` hold the theorems about runs.

**The allocator under threads.** `AtomicAllocator` interleaves single atomic steps of any number
of threads.

Where text and code disagree, the model follows the code. The module comment of
`crates/swap-proxy/src/fingerprint.rs:3-4` says pages are matched without comparing bytes, while
`crates/swap-proxy/src/main.rs:253` compares the whole page; that comparison is why no theorem but
`Sharing.OptimalSharing` needs to know anything about the hash. The comment at
`crates/swap-proxy/src/main.rs:176-177` takes a `NotTracked` answer for the whole story of an evicted
page; the answer may instead be `Removed`, for another slot.

## Model

| member | source | states |
|---|---|---|
| `Refinement.RefinesFlatDevice` | crates/swap-proxy/src/main.rs:166-296 | Every run of writes, reads, discards and passthrough toggles without a stale insertion or a wrapping count answers each read with the last successfully written page, zero-padded, or zeroes: for every hash, store contents, table size and filter size. |
| `Refinement.AmpleTableRefines` | crates/swap-proxy/src/main.rs:117-296 | The same for every run in which no count wraps, when the table has an entry for each slot. |
| `Refinement.CheckedReleaseRefines` | crates/swap-proxy/src/main.rs:166-183 | With a release that also compares slots, the same for every run in which no count wraps. |
| `Refinement.SmallRunHarmless` | crates/swap-proxy/src/dedup.rs:187-189 | A run that writes fewer than 2^32 - 1 different offsets wraps no count, unless, under the release as written with fewer entries than slots, it inserts stale. |
| `Refinement.SmallRunsRefine` | crates/swap-proxy/src/main.rs:117-296 | So on so few offsets an entry for each slot, or the slot-comparing release, is all that the flat-device reading takes. |
| `PassthroughRuns.PassthroughRefines` | crates/swap-proxy/src/main.rs:148-151 | A new engine that is never taken out of passthrough answers every read of every run like the flat device, for every hash, table and filter size: it starts in passthrough, where no step is harmful. |
| `PassthroughRuns.RunStaysDirect` | crates/swap-proxy/src/main.rs:234-241 | On such runs every mapping is direct and nothing is ever tracked. |
| `PassthroughRuns.PassthroughWriteFails` | crates/swap-proxy/src/main.rs:197-207 | There a write, even one that rewrites a mapped offset, fails if and only if as many offsets are mapped as there are slots. |
| `PassthroughRuns.PassthroughLikeDisk` | crates/swap-proxy/src/ublk_frontend.rs:246-302 | A served device whose passthrough is never turned off is a plain disk in every run of requests. |
| `Refinement.StepActsFlat` | crates/swap-proxy/src/main.rs:166-296 | One call keeps the ownership invariant and changes what can be read at its own offset only, unless it is a stale insertion or wraps a count. |
| `Refinement.RunKeeps` | crates/swap-proxy/src/main.rs:166-296 | Ownership of slots, exact reference counts and the flat reading hold together after every run without such a step. |
| `Refinement.AmpleRunNeverEvicts` | crates/swap-proxy/src/dedup.rs:154-265 | With an entry for each slot no run in which no count wraps ever evicts (pigeonhole on slots). |
| `Refinement.AmpleRunNeverStale` | crates/swap-proxy/src/dedup.rs:154-265 | Nor does such a run ever reach a stale insertion. |
| `Exactness.InvariantExactlyKept` | crates/swap-proxy/src/main.rs:166-296 | From any owned state a call keeps the ownership invariant if and only if it neither wraps a count nor, under the release as written, inserts stale. |
| `Exactness.HarmfulExactly` | crates/swap-proxy/src/main.rs:166-258 | After a harmless run, under either release rule, a call can be followed by harmless calls to a wrong read if and only if it is a harmful step itself. |
| `Exactness.HarmfulDiverges` | crates/swap-proxy/src/main.rs:166-258 | After a harmful step at an offset, at most one discard elsewhere and passthrough writes at any one other offset, harmless themselves, make it read their page. |
| `Exactness.WrapDangles` | crates/swap-proxy/src/dedup.rs:187-232 | From any owned state a write that wraps a count succeeds and leaves its slot free for reuse while mapped, at once or after one more discard. |
| `EvictionTrace.EvictionLosesPage` | crates/swap-proxy/src/main.rs:166-183 | One table entry, any store of three slots or more, any filter, any hash telling A, B and C apart: write A, B, A at the first three pages, discard the first, write C at the fourth; the third page then reads C although A is due. |
| `CountTrace.WrapLosesPage` | crates/swap-proxy/src/dedup.rs:187-189 | Any hash, store, filter and table of at least one entry, either release rule: write one page at 2^32 - 1 offsets, rewrite the first, write another page elsewhere; the first offset then reads that other page. |
| `EngineSteps.ReleaseKeeps` | crates/swap-proxy/src/main.rs:166-183 | Releasing a mapping keeps ownership: a slot is freed exactly when its last owner goes. |
| `EngineSteps.ReplaceKeeps` | crates/swap-proxy/src/main.rs:185-190 | Installing the new mapping before the old one is released keeps ownership and every stored page. |
| `EngineSteps.StoreFreshKeeps` | crates/swap-proxy/src/main.rs:197-219 | Storing a page takes a slot no mapping reads and disturbs no readable page; it fails exactly when no slot is left, changing nothing. |
| `EngineSteps.WriteDirectKeeps` | crates/swap-proxy/src/main.rs:197-207 | A direct write changes its own offset only, and fails exactly when the allocator is exhausted, leaving the engine as it was. |
| `EngineSteps.WriteUniqueKeeps` | crates/swap-proxy/src/main.rs:209-231 | So does a unique write, tracked or fallen back to a direct mapping. |
| `EngineSteps.WriteDedupKeeps` | crates/swap-proxy/src/main.rs:243-272 | A deduplicating write that is no harmful step keeps the invariant and succeeds exactly when the page is already stored or a slot is left; any hash collision is harmless. |
| `EngineSteps.RoomForHeld` | crates/swap-proxy/src/dedup.rs:154-162 | A page waiting to be tracked leaves fewer entries than slots handed out. |
| `EngineSteps.LookupFindsStored` | crates/swap-proxy/src/dedup.rs:122-147 | A tracked page with equal content is always found, despite filter and prefix guard. |
| `Conservation.SlotConservation` | crates/swap-proxy/src/backend.rs:149-167 | Every slot handed out so far has exactly one kind of owner: free queue, direct mapping, evicted mapping or tracked page; the four counts add up to the counter, which stays within the limit. |
| `Conservation.WriteFailsOnlyWhenFull` | crates/swap-proxy/src/main.rs:197-273 | In every state of the invariant, stale insertions included, a write fails if and only if it needs a slot and every slot is owned; a failed write changes nothing readable, tracked or allocated. |
| `Conservation.CountsExact` | crates/swap-proxy/src/dedup.rs:187-232 | After every harmless run a tracked count is the number of offsets naming the fingerprint, at least one; an untracked one is named at most once. |
| `Conservation.SelfRewriteChangesNothing` | crates/swap-proxy/src/main.rs:253-258 | Rewriting a tracked page with its own content keeps slot, count, queue and store, unless its count is at the 32-bit maximum. |
| `Sharing.OptimalSharing` | crates/swap-proxy/src/main.rs:209-273 | With passthrough off, an entry for each slot, no collision among written pages and no wrapping count, owned slots equal distinct live contents after every run. |
| `Sharing.SameSlotIffSamePage` | crates/swap-proxy/src/main.rs:243-272 | In such states two offsets share a slot if and only if they read the same page. |
| `Readback.WriteThenRead` | crates/swap-proxy/src/main.rs:234-286 | In any state at all, owned or not, an Ok write is what an immediate read of the offset returns. |
| `Readback.WritesAddUp` | crates/swap-proxy/src/main.rs:234-296 | Over every run total writes are the writes issued, and unique plus duplicate plus failed; reads and discards are the reads and discards issued. |
| `Readback.FailedWriteLeaksNothing` | crates/swap-proxy/src/main.rs:197-219 | In any state, also with a store smaller than the allocator believes, a failed write changes no mapping and no page and queues its slot again; a tracked slot that cannot be read fails the write. |
| `WriteKinds.WriteKind` | crates/swap-proxy/src/main.rs:197-273 | In every state of the invariant a successful write counts as duplicate and shares an owned slot exactly when its page is stored and passthrough is off; otherwise it counts as unique and maps a slot nobody owned. |
| `Fingerprints.NormalizePage` | crates/swap-proxy/src/main.rs:345-350 | Byte by byte, the data truncated or zero-padded to one page. |
| `Fingerprints.PrefixGuard` | crates/swap-proxy/src/fingerprint.rs:29-41 | On whole pages the guard accepts exactly equal first 64 bytes. |
| `Fingerprints.BloomIndices` | crates/swap-proxy/src/fingerprint.rs:47-57 | Three indices, each inside the filter. |
| `FilterIndices.ThirdPosition` | crates/swap-proxy/src/fingerprint.rs:47-57 | At every size a filter can have, the third position is the sum of the other two modulo the size, wrapping addition notwithstanding. |
| `FilterIndices.PositionsTellApart` | crates/swap-proxy/src/fingerprint.rs:48-49 | At 2^64 bits the first two positions determine the fingerprint: every byte enters one of them. |
| `BloomFilters.FilterBitsFit` | crates/swap-proxy/src/dedup.rs:43-50 | The filter is a power of two of whole words, at least ten and, beyond one word, fewer than twenty bits per page. |
| `BloomFilters.InsertRemembers` | crates/swap-proxy/src/dedup.rs:53-73 | No false negatives, now or after later insertions. |
| `FilterIndices.EmptyReportsNothing` | crates/swap-proxy/src/dedup.rs:43-50 | An empty filter reports no key. |
| `FilterIndices.ReportMeans` | crates/swap-proxy/src/dedup.rs:53-73 | A filter reports a key if and only if each of its positions was raised by some inserted key. |
| `BloomFilters.BloomFilter.constructor` | crates/swap-proxy/src/dedup.rs:43-50 | An empty set of positions over words that hold them all. |
| `BloomFilters.BloomFilter.Insert` | crates/swap-proxy/src/dedup.rs:53-60 | Or-ing bits into words is set insertion of the three positions. |
| `BloomFilters.BloomFilter.MightContain` | crates/swap-proxy/src/dedup.rs:63-73 | Masking words is membership of all three positions. |
| `Dedup.LookupIgnoresFilter` | crates/swap-proxy/src/dedup.rs:122-147 | A lookup answers what the index alone would, in every well-formed table. |
| `Dedup.InsertRefuses` | crates/swap-proxy/src/dedup.rs:154-184 | Insertion refuses exactly a tracked fingerprint, or a full table whose entries are all shared. |
| `Dedup.EvictPicksOldest` | crates/swap-proxy/src/dedup.rs:238-265 | Eviction untracks the singly referenced entry with the oldest stamp, and fails exactly when all are shared. |
| `Dedup.SortByTickSorts` | crates/swap-proxy/src/dedup.rs:245 | Sorting orders the stamps, keeps each one and no duplicates. |
| `Dedup.EvictKeepsWf` | crates/swap-proxy/src/dedup.rs:238-265 | Eviction removes index entry and stamp together, one of each. |
| `Dedup.InsertKeepsWf` | crates/swap-proxy/src/dedup.rs:154-184 | Stamps and index keep the same keys, ticks stay distinct, the size bound holds. |
| `Dedup.AddReferenceKeepsWf` | crates/swap-proxy/src/dedup.rs:187-202 | Restamping keeps stamps and index in agreement. |
| `Dedup.RemoveReferenceKeepsWf` | crates/swap-proxy/src/dedup.rs:205-232 | The last reference takes index entry and stamp together. |
| `DedupRuns.RunKeepsWf` | crates/swap-proxy/src/dedup.rs:122-265 | All of that in every state any sequence of calls reaches. |
| `DedupRuns.RunLookupTransparent` | crates/swap-proxy/src/dedup.rs:43-147 | The filter is transparent after any inserts, removals and evictions. |
| `DedupRuns.Lifetimes` | crates/swap-proxy/src/dedup.rs:154-265 | Begun lifetimes of a fingerprint are its removals, its evictions and one if tracked; unique pages split into tracked, evicted and removed; each removal returns its own lifetime's slot. |
| `DedupCounters.CountersMean` | crates/swap-proxy/src/dedup.rs:122-265 | In every run the counters are the lookups the index answers, the lookups the filter lets through in vain, the fingerprints begun and the insertions that evicted one. |
| `DedupCounters.PassesOnlyThrough` | crates/swap-proxy/src/dedup.rs:122-184 | After any run the filter lets a key through if and only if each of its positions belongs to some fingerprint ever tracked. |
| `Recency.StampsAreLastUses` | crates/swap-proxy/src/dedup.rs:176-198 | In every run a stamp is the position of the fingerprint's last insertion or reference in the log of uses. |
| `Recency.EvictsLeastRecent` | crates/swap-proxy/src/dedup.rs:238-265 | After any run eviction drops the singly referenced page used longest ago. |
| `DedupTables.DedupTable.Lookup` | crates/swap-proxy/src/dedup.rs:122-147 | The call on words, map and counters is the table function, counters included. |
| `DedupTables.DedupTable.Insert` | crates/swap-proxy/src/dedup.rs:154-184 | The call is the table function, eviction, filter and stamps included. |
| `DedupTables.DedupTable.AddReference` | crates/swap-proxy/src/dedup.rs:187-202 | The call is the table function, wrapping count and restamping included. |
| `DedupTables.DedupTable.Restamp` | crates/swap-proxy/src/dedup.rs:191-196 | The search loop restamps the first occurrence and nothing else. |
| `DedupTables.DedupTable.RemoveReference` | crates/swap-proxy/src/dedup.rs:205-232 | The call is the table function, with its three answers. |
| `DedupTables.DedupTable.EvictLruMetadata` | crates/swap-proxy/src/dedup.rs:238-265 | The candidate loop over the sorted stamps is the table's eviction. |
| `Backend.SlotAllocator.Allocate` | crates/swap-proxy/src/backend.rs:149-161 | Oldest freed slot, else the counter, restored on failure. |
| `Backend.SlotAllocator.Free` | crates/swap-proxy/src/backend.rs:163-167 | Queues a slot below the limit, ignores any other. |
| `Backend.HandedOutInOrder` | crates/swap-proxy/src/backend.rs:149-161 | Queued slots are handed out first freed first, then unused ones in order, then none. |
| `Backend.FreedInOrder` | crates/swap-proxy/src/backend.rs:149-167 | A freed slot comes back after all queued before it; one outside the store is not taken back; a refused allocation changes nothing. |
| `Backend.PageStore.WritePage` | crates/swap-proxy/src/backend.rs:74-93 | Replaces one page, padded or truncated; refuses exactly a slot out of range. |
| `Backend.PageStore.ReadPage` | crates/swap-proxy/src/backend.rs:96-109 | The page of a slot in range, else an error. |
| `AtomicAllocator.InterleavingKeeps` | crates/swap-proxy/src/backend.rs:149-167 | After any interleaving of atomic steps every slot is queued or held once, and the counter exceeds the slots handed out only by pending failures. |
| `AtomicAllocator.NeverTwoHolders` | crates/swap-proxy/src/backend.rs:149-167 | No slot ever has two holders or is held and queued, and every held slot is below the limit. |
| `AtomicAllocator.QuietCounter` | crates/swap-proxy/src/backend.rs:154-161 | With no failed attempt pending the counter is within the limit and bounds exactly the queued and held slots. |
| `AtomicAllocator.RefusedPastEverySlot` | crates/swap-proxy/src/backend.rs:149-161 | A thread is refused only once the counter has passed every slot: each is then held, or has been handed out and queued again. |
| `AtomicAllocator.UndisturbedCallIsAllocate` | crates/swap-proxy/src/backend.rs:149-161 | Without interference the steps of one call are the sequential allocator. |
| `ProxyEngines.ProxyEngine.constructor` | crates/swap-proxy/src/main.rs:117-153 | A new engine over a store that may hold anything, in the state from which `PassthroughRuns.PassthroughRefines` runs. |
| `ProxyEngines.ProxyEngine.ReleaseMapping` | crates/swap-proxy/src/main.rs:166-183 | The call on the mutable parts is the engine's release as written. |
| `ProxyEngines.ProxyEngine.ReplaceMapping` | crates/swap-proxy/src/main.rs:185-190 | The call is the engine's replace, new mapping first. |
| `ProxyEngines.ProxyEngine.WriteDirect` | crates/swap-proxy/src/main.rs:197-207 | The call is the engine's direct write, failure included. |
| `ProxyEngines.ProxyEngine.WriteUniqueOrDirect` | crates/swap-proxy/src/main.rs:209-231 | The call is the engine's unique write, fallback included. |
| `ProxyEngines.ProxyEngine.HandleWrite` | crates/swap-proxy/src/main.rs:234-273 | The call is the engine's write in all its branches. |
| `ProxyEngines.ProxyEngine.HandleRead` | crates/swap-proxy/src/main.rs:276-286 | The call returns the engine's page or error and moves only the read counter. |
| `ProxyEngines.ProxyEngine.HandleDiscard` | crates/swap-proxy/src/main.rs:289-296 | The call is the engine's discard. |
| `Frontend.NewRequestSectors` | crates/swap-proxy/src/ublk_frontend.rs:51-70 | A request keeps its operation; it is page-aligned exactly when its sectors come in eights; length and offset are the true ones modulo 2^32 and 2^64, and exactly so below the stated sector counts. |
| `SectorRequests.SectorWrite` | crates/swap-proxy/src/ublk_frontend.rs:51-58 | Issued in sectors, a write stores the buffer at bytes 512 times the sectors and nowhere else, or fails after whole pages of a proper prefix. |
| `SectorRequests.SectorRead` | crates/swap-proxy/src/ublk_frontend.rs:51-58 | A read of sectors returns the bytes stored there and changes nothing. |
| `SectorRequests.SectorDiscard` | crates/swap-proxy/src/ublk_frontend.rs:51-58 | A discard of sectors zeroes them and nothing else, and never fails. |
| `SectorRequests.SectorWriteZeroes` | crates/swap-proxy/src/ublk_frontend.rs:51-58 | Writing zeroes to sectors zeroes them and nothing else, or fails after whole pages of a proper prefix. |
| `SectorRequests.SectorRoundTrip` | crates/swap-proxy/src/ublk_frontend.rs:51-70 | Sectors written are the sectors read back. |
| `SectorRequests.SectorsRefused` | crates/swap-proxy/src/ublk_frontend.rs:60-69 | Sectors not in eights are refused and change nothing. |
| `Frontend.WritePagesPatches` | crates/swap-proxy/src/ublk_frontend.rs:268-279 | A multi-page write without a harmful page patches exactly the pages it got through, all of them if and only if it succeeds. |
| `Frontend.WriteRequest` | crates/swap-proxy/src/ublk_frontend.rs:268-279 | An aligned write patches the whole byte range, or fails with EIO after a proper prefix of whole pages; no other byte changes. |
| `Frontend.ReadRequest` | crates/swap-proxy/src/ublk_frontend.rs:252-267 | An aligned read succeeds with the device's bytes, keeps the rest of the buffer and changes no readable byte. |
| `Frontend.ReadRequestAnyState` | crates/swap-proxy/src/ublk_frontend.rs:252-267 | In any state at all a read completes if and only if every page of the range can be read; else EIO, with the bytes before the first unreadable page and the rest of the buffer untouched. |
| `Frontend.RequestMaps` | crates/swap-proxy/src/ublk_frontend.rs:268-299 | A discard leaves no page of its range mapped, a completed write or write of zeroes every one: the two kinds of zeroing differ there only. |
| `Frontend.WriteThenReadRequest` | crates/swap-proxy/src/ublk_frontend.rs:252-279 | A read request returns what a successful write request of the same range stored. |
| `Frontend.ZeroingRequest` | crates/swap-proxy/src/ublk_frontend.rs:281-299 | Discard, and a successful WriteZeroes, zero exactly the range; a failed one zeroes a proper prefix. |
| `Frontend.DiscardLikeWriteZeroes` | crates/swap-proxy/src/ublk_frontend.rs:281-299 | After a discard or a successful WriteZeroes no address tells which one ran. |
| `Frontend.RefusedRequest` | crates/swap-proxy/src/ublk_frontend.rs:246-302 | EINVAL exactly for misaligned or short-buffer requests; refused, flush and unsupported requests touch nothing. |
| `RequestRuns.RequestServed` | crates/swap-proxy/src/ublk_frontend.rs:246-302 | One harmless request of any kind, from any owned state, takes the engine's byte image where a plain disk would go, with the same buffer and reply. |
| `RequestRuns.ServesFromAnywhere` | crates/swap-proxy/src/ublk_frontend.rs:246-302 | So does every run of harmless requests and passthrough toggles, from any owned state; every byte stays readable. |
| `RequestRuns.RequestsLikeDisk` | crates/swap-proxy/src/ublk_frontend.rs:246-302 | In particular every run from a new device, which reads all zeroes, in which no page is a stale insertion or wraps a count. |
| `RequestRuns.AmpleRequestsLikeDisk` | crates/swap-proxy/src/ublk_frontend.rs:246-302 | With an entry for each slot, every run of requests and toggles in which no count wraps. |
| `RequestRuns.SmallDeviceLikeDisk` | crates/swap-proxy/src/ublk_frontend.rs:246-302 | On a device of fewer than 2^32 - 1 pages, an entry for each slot is all it takes. |
| `RequestExactness.HarmfulRequestExactly` | crates/swap-proxy/src/ublk_frontend.rs:246-302 | After a harmless run of requests and toggles, a one-page request is harmful if and only if some harmless continuation shows that the device is no plain disk. |
| `RequestTrace.SmallTableIsNoDisk` | crates/swap-proxy/src/ublk_frontend.rs:246-302 | Without the stale and entry-per-slot hypotheses this fails: behind one table entry a toggle and five one-page requests give a device no plain disk could be. |
| `BlockDevice.ExecuteRequest` | crates/swap-proxy/src/ublk_frontend.rs:246-302 | The page loops over the mutable engine and buffer leave engine, buffer and reply of the request function. |
| `BlockDevice.WriteBuffer` | crates/swap-proxy/src/ublk_frontend.rs:274-277 | The loop writes pages in order and stops at the first failure. |
| `BlockDevice.ExecuteRead` | crates/swap-proxy/src/ublk_frontend.rs:252-267 | The loop copies pages in order into the buffer and stops at the first failure. |
| `Ksm.ClampByTable` | crates/common/src/ksm.rs:20-29 | Every table entry is in force for its own parameter; a value passes unclamped exactly when it lies in that range. |
| `Ksm.SafeRanges` | crates/common/src/ksm.rs:20-29 | The eight ranges, parameter by parameter. |
| `Ksm.ClampNearest` | crates/common/src/ksm.rs:291-298 | Clamping takes the nearest value of the range. |
| `Ksm.WriteEffect` | crates/common/src/ksm.rs:247-289 | A write is accepted exactly in a dry run or when the kernel takes it; a dry run changes nothing, an accepted write its own register and no other. |
| `Ksm.SnapshotReads` | crates/common/src/ksm.rs:116-129 | A snapshot succeeds if and only if the four core parameters are readable, and holds what was read; each of the others has its default, in range. |
| `Ksm.RestoreWrites` | crates/common/src/ksm.rs:157-196 | Against a kernel that takes the clamped numbers and the modes this restore sends, but may refuse `pages_to_scan` under scan-time, advisor numbers outside the snapshot's mode and anything else it likes, restore succeeds and leaves the register file that its eight writes give in turn. |
| `Ksm.RestoreBringsBack` | crates/common/src/ksm.rs:134-196 | Whatever happened to the restored registers since the snapshot, restore brings the whole file back if and only if the snapshot's values lie in their safe ranges. |
| `Ksm.SuccessMeansCoreBack` | crates/common/src/ksm.rs:157-196 | Under any kernel, success means the four core parameters are back, clamped. |
| `Ksm.CoreBack` | crates/common/src/ksm.rs:116-196 | Without advisor registers too, or with a mode the kernel refuses, as long as scan-time is not left active a restore brings the four core parameters of a snapshot back. |
| `Ksm.DryRestoreWritesNothing` | crates/common/src/ksm.rs:261-264 | A dry restore succeeds and changes no register, whatever the kernel. |
| `Ksm.FailureLeavesAdvisor` | crates/common/src/ksm.rs:173-190 | A restore that fails leaves the advisor in its first mode and the two advisor numbers as they were: after a scan-time snapshot the advisor stays off. |
| `Ksm.RestoreTouches` | crates/common/src/ksm.rs:157-196 | Under any kernel, failing or not, a restore changes no register but the seven it writes. |
| `Ksm.PagesNeverRefused` | crates/common/src/ksm.rs:173-190 | Whatever mode was active and whatever else the kernel refuses, the restore's own `pages_to_scan` write is accepted; so a restore succeeds exactly when its `run`, `sleep_millisecs` and `max_page_sharing` writes do. |
| `Ksm.StrictKernelObliges` | crates/common/src/ksm.rs:20-29 | A kernel that validates modes and ranges, and refuses `pages_to_scan` under scan-time, meets those hypotheses: the controller sends nothing out of range. |
| `GovernorRuns.StrictKernelAccepts` | crates/daemon/src/governor.rs:358-405 | The same kernel meets the hypotheses on governor runs, with and without the advisor. |
| `KsmControllers.KsmController.ClampValue` | crates/common/src/ksm.rs:291-298 | The search loop ends in the parameter's range, or leaves an unknown parameter alone. |
| `KsmControllers.KsmController.WriteSetting` | crates/common/src/ksm.rs:247-289 | One register changes exactly when the kernel accepts and no dry run is on; in a dry run none does. |
| `KsmControllers.KsmController.WriteValidated` | crates/common/src/ksm.rs:228-240 | The value written is the clamped one; in a dry run nothing is written. |
| `KsmControllers.KsmController.Snapshot` | crates/common/src/ksm.rs:134-154 | Saves the configuration, or fails and keeps an earlier snapshot when a core parameter is unreadable. |
| `KsmControllers.KsmController.RestoreSaved` | crates/common/src/ksm.rs:157-196 | The ordered writes are the restore function; without a snapshot, or in a dry run, nothing is written. |
| `GovernorMachine.PressureToLevel` | crates/daemon/src/governor.rs:287-295 | Pressure never asks for level 0 nor beyond 5. |
| `GovernorLaws.PressureOrder` | crates/daemon/src/governor.rs:287-295 | More pressure never asks for less; critical asks for the top, idle and low for the lightest running level, from which medium is a multi-level jump, and high lies strictly between medium and critical. |
| `GovernorLaws.CriticalReachesTop` | crates/daemon/src/governor.rs:287-351 | Steady critical pressure ends at level 5 within one step time, from any reachable state. |
| `GovernorLaws.IdleReachesLightest` | crates/daemon/src/governor.rs:287-351 | Steady idleness ends at level 1, not 0, within four step times. |
| `GovernorLaws.ProfilesOrdered` | crates/daemon/src/governor.rs:46-95 | A higher level sleeps less, scans more and shares at least as much; the top sits at the edge of the safe ranges; only level 0 stops KSM. |
| `Governors.Governor.Transition` | crates/daemon/src/governor.rs:303-351 | The branches on the fields are the transition function, returned level and counters. |
| `Governors.Governor.Apply` | crates/daemon/src/governor.rs:358-405 | The ordered, possibly refused writes and the level and timestamp they leave. |
| `Governors.Governor.TickWithReadings` | crates/daemon/src/governor.rs:190-242 | One tick is the tick function on fields and registers, and keeps the level within the profiles. |
| `Governors.Governor.Loop` | crates/daemon/src/governor.rs:129-165 | Start-up and any series of ticks are the run of the state machine and its registers. |
| `GovernorRuns.RunSteady` | crates/daemon/src/governor.rs:303-351 | Every run keeps the level in 0..5, both counters below the readings needed, and the full-scan mark at zero. |
| `GovernorRuns.NeverIdleAgain` | crates/daemon/src/governor.rs:190-295 | Once above 0 no run returns to 0. |
| `GovernorRuns.RampUpIsEarned` | crates/daemon/src/governor.rs:303-329 | A one-level rise ends as many consecutive ticks as hysteresis asks for, each with a target one above the level it found. |
| `GovernorLaws.RampDownIsEarned` | crates/daemon/src/governor.rs:330-344 | A pressure-driven step down is by one and ends as many consecutive ticks as hysteresis asks for, each with a target below the level it found and a cooldown after every pressure-driven action before it. |
| `GovernorLaws.CooldownKept` | crates/daemon/src/governor.rs:330-344 | In every run a pressure-driven step down comes a cooldown after the start and after every earlier pressure-driven action. |
| `GovernorLaws.DeferredDownWaits` | crates/daemon/src/governor.rs:211-227 | And after every earlier attempt to change level, deferred ones included. |
| `GovernorLaws.AttemptsRestart` | crates/daemon/src/governor.rs:303-351 | Every attempt, deferred or not, starts counters and cooldown afresh, nothing else restarts the cooldown, and it takes effect exactly outside the stabilization window. |
| `GovernorLaws.LowersExactly` | crates/daemon/src/governor.rs:330-344 | The level is lowered exactly at the last reading needed, past cooldown and stabilization, to the nanosecond. |
| `GovernorLaws.JumpsAtOnce` | crates/daemon/src/governor.rs:309-318 | A target two or more levels up is reached at once, whatever the counters, exactly outside the stabilization window. |
| `GovernorLaws.CutsExactly` | crates/daemon/src/governor.rs:229-242 | After any run a losing reading with more than ten full scans leaves the level one below the pressure half's, if that is above 1; no other reading cuts. |
| `GovernorLaws.ActionsChain` | crates/daemon/src/governor.rs:111-126 | The first action of a run starts at level 0, each next one where the last ended, and the current level is where the last one ended. |
| `GovernorRuns.ActionSpacing` | crates/daemon/src/governor.rs:211-242 | In every run a pressure-driven application comes a stabilization window after all earlier ones; any closer one is a profit cut by exactly one, never below 1. |
| `GovernorRuns.RegistersFollowLevel` | crates/daemon/src/governor.rs:358-405 | From the first application on the registers show the current level's profile, clamping changing nothing, and KSM runs, in advisor mode too. In manual mode the kernel may refuse `pages_to_scan` under scan-time: a run that starts outside it stays outside it. |
| `GovernorRuns.DryRunWritesNothing` | crates/common/src/ksm.rs:261-264 | In a dry run no governor run, start-up included, writes a register, whatever the kernel accepts. |
| `GovernorLaws.StartupRuns` | crates/daemon/src/governor.rs:143-148 | Start-up leaves KSM running, under scan-time if the advisor is used and under the mode it found otherwise, and touches nothing else. |
| `GovernorRuns.AdvisorKeepsScanRate` | crates/daemon/src/governor.rs:370-393 | In advisor mode no run changes `pages_to_scan`, nor `run` to anything but 1, whatever the kernel accepts. |
| `GovernorRuns.RestoreUndoesRun` | crates/common/src/ksm.rs:134-196 | After any governor run, restore of the earlier snapshot is never refused and brings the register file back if and only if the snapshot was in range. |
| `Convergence.ChangesInTime` | crates/daemon/src/governor.rs:190-227 | From any reachable state, calm ticks lasting longer than k step times bring the level k changes closer to the target or all the way, for every k; a step time is stabilization, cooldown and max(1, hysteresis) tick periods, although deferred changes reset counters and cooldown. |
| `Convergence.StepDownInTime` | crates/daemon/src/governor.rs:190-227 | Each single step down is due within one step time, and never overshoots. |
| `Convergence.Converges` | crates/daemon/src/governor.rs:190-227 | After one step time per level still to go, one upward and one per level downward, the level is the target. |
| `Convergence.StaysAtTarget` | crates/daemon/src/governor.rs:190-351 | At the target, calm ticks never leave it. |
| `Convergence.CalmActions` | crates/daemon/src/governor.rs:211-227 | A calm run applies one profile in all going up and one per level going down, all driven by pressure. |

## Left out

- Concurrent engine calls: a write looks up, reads and adds its reference under separate locks; each call is one atomic step here. Only the slot allocator is interleaved.
- The xxh3 hash: a foreign library; the hash is any function.
- File and device I/O of the page store: seeks, OS errors, an existing store file shorter than its size. The store is an array of pages whose initial contents are arbitrary.
- libublk control and queue code, the raw opcode constants of `UblkOp::from_raw`, `mkswap`/`swapon` and cleanup parsing.
- 64-bit counters, ticks, page offsets and device addresses are unbounded; sector shifts and the atomic allocator's counter are modelled at their width. A machine word of the Bloom filter is its 64 booleans.
- The Bloom filter's size needs `capacity * 10` to stay within half of 64 bits, beyond which the source overflows.
- Refinement.RefinesFlatDevice: false of runs with a stale insertion or a wrapping reference count; `Exactness.HarmfulExactly` is the exact condition.
- RequestExactness.HarmfulRequestExactly: exact for one-page requests; of a longer request with a harmful page only the one direction is shown, that without one it is served like a disk.
- AtomicAllocator.InterleavingKeeps: slots plus threads must stay below 2^64 - 1 and only held slots are pushed.
- A passthrough toggle in the middle of one block request: toggles fall between requests in `RequestRuns`, between pages in the page-level runs.
- KSM write rate limiting: the timestamp it compares is never refreshed after construction, so a controller always passes it. Read-back verification only logs.
- Sysfs text: bracket and number parsing, and the JSON file of the snapshot. Registers hold numbers and strings.
- GovernorRuns.RegistersFollowLevel: assumes the kernel takes the in-range numbers the governor sends; a refused write is ignored by the source and leaves the register as it was. Manual mode started under scan-time is not covered, since the kernel then refuses `pages_to_scan`.
- The dry-run switch of the KSM controller is settled before its first write.
- PSI parsing, classification and the stability counter (pressure is an input); the `last_global_action`, `last_adjustment` and display fields of the shared state.
- The clock is read once per tick; the source reads it several times within one.
- Process scanning, ptrace injection, `process_madvise`, configuration loading, CLI, metrics and tokio wiring: foreign calls or easy members.
