# libdvm: verified model

libdvm mounts file systems found on block devices. Between a file system and its
device sits a write-back cache of sector pages (`source/dvm_cache.c`), which must
look exactly like a flat array of sectors although it keeps pages in a linked
recency list, remembers only one dirty interval a page, bypasses itself for large
aligned transfers, reuses a search result across loop iterations, and can fail in
the middle of any of this. Above the cache, discs are shared by reference counts
that cross cache creation, probing, mounting and unmounting, and that decide when
the last flush and the device's destructor run. This project models both, together
with the partition-table reader and the FAT timestamp packing, and proves what
they promise.

`dafny verify dfyconfig.toml` checks everything. Read the files in this order:

- `Pages`, `Device`, `Wrappers`: page arithmetic and bit masks; the block device
  with an oracle that decides which operations fail and what they leave behind.
- `CacheModel`: every routine of the cache as a function on a list of pages.
- `CacheInvariant`, `Transparency`: the view of a sector, the invariant, what one
  iteration and one request do to them, and when a request succeeds.
- `StaleSearch`, `Requests`, `Exactness`: exactly which requests the remembered search
  serves correctly.
- `Runs`: whole runs as runs on a flat array; flushing; replacing the size.
- `Recency`: least-recent order, scan resistance, number of device transfers.
- `Traffic`: what a request asks of the device, and which pages it leaves.
- `Links`, `DiscCache`: the cache in place, with linked entries and one data buffer,
  computing exactly the functions of `CacheModel`.
- `DirtyMarks`: the dirty interval in its 16-bit fields.
- `Ownership`, `Volumes`: user counts, destructors, drivers and volumes; first on
  values, then with disc and volume objects updated in place.
- `SoleUse`, `Durability`: discs that only a cache uses, and the end of their life.
- `PartitionTable`, `Probing`: from the first sector to mounted volumes.
- `FatTime`: packed timestamps.

## The read/write loop, as written and refreshed

After a page is brought in on a miss, `source/dvm_cache.c` lines 228-237 replace the
remembered entry but leave `search_base` one past the page found before. If the
request goes on into that page, no search is made, the page looks missing, and it is
brought in a second time. What was written to the first copy is then out of sight.

Every function and theorem about the loop takes a parameter `refresh`. With `refresh`
false it is the loop as written. With `refresh` true `search_base` is set to the
current page plus one after line 237.

- `Requests.RefreshedRequestTransparent`: the refreshed loop serves every request.
- `Requests.DirectRequestTransparent`: so does the loop as written for every direct
  request: not marked partial, at least a page long, with an aligned buffer. All others
  are called allocating; `Traffic` shows what each kind asks of the device.
- `Requests.PermittedRequestTransparent`: and for every allocating request that
  satisfies `StaleSearch.Guard`, a condition on the resident pages, the victim and
  the pages the request touches, checked before the call.
- `Exactness.GuardIsTransparency`: the guard is exact. It holds of a list if and only
  if every sound cache with that list, on a device that never fails, serves the request
  as a flat array would, and if and only if no caller sees a difference in what is read,
  in what the cache shows afterwards or in what a flush then stores. Where it does not
  hold, a cache is constructed that answers a read with old data, or one that shows
  again, or flushes over it, what a write had replaced.
- `Requests.DuplicatesUnlessPermitted`: for one given cache the guard decides whether
  some page is held twice on the way. One given cache may still answer correctly by
  accident, for instance when both copies hold the same data.
- `Requests.StaleRead`: a visible failure for every page size of three or more: write
  one sector into an unused cache, read the two sectors around it, and the read
  returns the old one.

`DiscCache.LinkedCache.ReadWrite` is the loop as written, and `Runs.EveryRunIsFlat` and
`Durability.DurableBeforeDestroy` cover both: permitted requests for the loop as
written, all requests for the refreshed one.

## Other places where the code misses its intent

- If a file system comes up and the device table then refuses its volume, releasing
  the volume destroys a disc that has no other user (`source/dvm_volume.c:76-79`), and
  the caller destroys it again (`source/dvm_prober.c:257-259`, and in the same way
  `source/fat_wrappers.c:55-57`). `Ownership.ProbeInterfaceExact` shows that this is
  exactly when the books are not kept; `Ownership.RefusedVolume` is the smallest case.
- The dirty interval is held in 16-bit fields, narrowed at every store.
  `DirtyMarks.WidenCovers`: a write is taken into the stored interval exactly if its end
  in the page is below 2^16. `DirtyMarks.WholeWriteMarksDirty`: writing a whole page of a
  clean entry leaves the entry looking clean, and the write is lost, exactly when pages
  have more than 2^15 sectors. `DirtyMarks.LastSectorLost`: with pages of 2^16 sectors
  only writes to the last sector of a page are affected. The cache routines are proved
  for pages of at most 2^15 sectors.
- What was written through a cache is on the disc beneath when that disc's destructor
  runs if and only if nobody used the discs beneath other than through the cache
  (`Durability.DurableExactly`). A file system mounted on such a disc directly, or a
  second cache on it, may overwrite what the first cache stored
  (`Durability.SharedDiscLosesWrite`); caches stacked on the cache do no harm. Discs that
  probing wraps in a cache have no other user as long as nobody is handed the disc itself
  (`SoleUse.ProbedDiscStaysAlone`).
- Probing under a base name already in use takes the device away from the volume that
  had it, which stays mounted (`Probing.ProbedVolumesReachable` says exactly when).
- A partition whose end does not fit in 32 bits passes every size check
  (`PartitionTable.WrappedEntryAccepted`); all others that are listed lie inside the
  disc (`PartitionTable.PartsInside`).
- Naming file systems reads a whole buffer at the start of each partition, under the size
  the table has just left. One partition that starts too close to that size makes the
  table be refused as a whole (`PartitionTable.CachedTableNarrows` says exactly when).
- A FAT boot sector recognised by its geometry may have a sector or cluster size of
  zero, which passes the power-of-two test (`PartitionTable.FatSizes`,
  `PartitionTable.ZeroSizedIsFat`).

## Model

| member | source | states |
|---|---|---|
| Runs.EveryRunIsFlat | source/dvm_cache.c:148-284 | along any run of reads, writes, flushes and size changes the view behaves as one flat array: every operation succeeds exactly when it is in bounds and the device accepts all it asks for, a write stores its data, a read returns what the array holds, a flush or a smaller size changes nothing, and after a failure only the chunk of a failed direct transfer is in doubt; the array agrees with the last successful write of every sector |
| Requests.RefreshedRequestTransparent | source/dvm_cache.c:148-284 | refreshed loop, every request: refused without effect exactly when out of bounds; otherwise successful exactly when the device accepts every operation, the finished sectors transferred, nothing in doubt unless a direct transfer failed, and then only its chunk, which meets no resident page; nothing else changes and the invariant holds |
| Requests.DirectRequestTransparent | source/dvm_cache.c:163-275 | loop as written: the same for every request that is not marked partial, at least a page long and aligned |
| Requests.PermittedRequestTransparent | source/dvm_cache.c:163-275 | loop as written: the same for every request that satisfies the guard; an allocating request that fails leaves nothing in doubt |
| Requests.DuplicatesUnlessPermitted | source/dvm_cache.c:227-237 | loop as written, allocating request: the guard excludes a page held twice, and a completed request without it has held one twice |
| Exactness.GuardIsTransparency | source/dvm_cache.c:163-275 | loop as written, allocating request: the guard holds of a list if and only if every sound cache with that list, on a device that never fails, serves the request as a flat array would; and if and only if what a read returns, what the cache shows afterwards and what a flush then stores are always those of a flat array |
| Exactness.ReadReturnsOld | source/dvm_cache.c:227-253 | a read whose walk clashes returns the device's old data for a sector whose page is dirty in the cache |
| Exactness.WriteLeavesStale | source/dvm_cache.c:197-253 | a write whose walk clashes leaves a fully dirty entry with the old data of a page it wrote, either before every other copy in the list or behind them all |
| Exactness.StaleShows | source/dvm_cache.c:59-130 | such a stale copy shows in the cache at once, or on the device after a flush that succeeds |
| Requests.StaleRead | source/dvm_cache.c:184-197 | for every page size of three or more and an unused cache of three or more entries, a write followed by a read across the page before returns the sector as it was before the write |
| Requests.SafeWalkSafeRun | source/dvm_cache.c:172-253 | whether the loop duplicates a page depends only on the list of pages, not on the data or the device |
| Requests.ClashDuplicates | source/dvm_cache.c:227-237 | a refill for a page another entry holds leaves two entries with that page |
| Requests.RefreshedNeverDuplicates | source/dvm_cache.c:184-253 | with the search refreshed no run of the loop gives a page to two entries |
| Requests.DirectRefillsNothing | source/dvm_cache.c:256-275 | after a request that is not marked partial, at least a page long and aligned every entry holds the page it held before, whatever the device did |
| StaleSearch.GuardIsExact | source/dvm_cache.c:169-253 | an allocating request never meets a page it is about to bring in again if and only if the guard holds at its start |
| StaleSearch.SettledFresh | source/dvm_cache.c:184-237 | from a page boundary, searching, with a harmless victim: safe if and only if the resident pages among those to come form a prefix |
| StaleSearch.FreshAtPage | source/dvm_cache.c:184-237 | from a page boundary, searching, any victim: safe if and only if the pages form a prefix, or the first resident one past a gap is the victim and the rest is a prefix |
| StaleSearch.SkippingIntoPage | source/dvm_cache.c:185-237 | skipping the search up to a successor that is still resident duplicates it |
| StaleSearch.SkippingPastPage | source/dvm_cache.c:185-237 | skipping the search past a successor that was evicted is safe if and only if what follows is a prefix |
| StaleSearch.GuardPartialHit | source/dvm_cache.c:197-237 | exact guard when the first page is accessed in part and resident |
| StaleSearch.GuardPartialMiss | source/dvm_cache.c:227-237 | exact guard when the first page is accessed in part and missing |
| StaleSearch.ChunkFacts | source/dvm_cache.c:172-182 | chunks end at page ends, in order, and all but the first and last cover their page wholly |
| Transparency.StepKeeps | source/dvm_cache.c:172-281 | one iteration that does not duplicate a page keeps the invariant, transfers exactly its chunk, keeps the remembered entry equal to what a fresh search would find in a direct request, and leaves nothing in doubt but the chunk of a failed direct transfer |
| Transparency.RunKeeps | source/dvm_cache.c:172-284 | the same composed over the whole loop, stopped anywhere by a device failure |
| Transparency.StepLogged | source/dvm_cache.c:233-274 | an iteration goes on exactly when the device accepts every operation it asks for |
| Transparency.RunLogged | source/dvm_cache.c:172-284 | the loop succeeds exactly when the device accepts every operation it asks for |
| Transparency.DirectMissesPages | source/dvm_cache.c:256-275 | no resident page meets the sectors of a direct transfer |
| Transparency.DirectStepKeeps | source/dvm_cache.c:256-275 | a direct transfer, successful or not, changes the view only inside its range and leaves the remembered search valid |
| Transparency.FreshAfterHit | source/dvm_cache.c:184-194 | after a hit the next page of a direct request is searched for again |
| Transparency.RefillStepKeeps | source/dvm_cache.c:227-253 | eviction, load and access: the view changes only by the chunk, and by nothing when the eviction write or the load fails |
| CacheInvariant.SearchIsNearest | source/dvm_cache.c:59-85 | the search finds the page if resident, else its nearest resident successor; the early exit hides no resident page |
| CacheInvariant.FlushPageKeeps | source/dvm_cache.c:92-114 | writing back the hull of the dirty sectors never changes the view, accepted or not, also on a short last page |
| CacheInvariant.RefillKeeps | source/dvm_cache.c:237-251 | giving a clean entry to another page changes no view when the page is loaded, and none outside the page when the load is skipped |
| CacheInvariant.StoreKeeps | source/dvm_cache.c:200-210 | copying into a page makes the view take the sectors over, and the widened interval still covers every difference from the device |
| CacheInvariant.StoredHull | source/dvm_cache.c:203-210 | the dirty interval after a write is the smallest one with the sectors dirty before and the sectors written |
| CacheInvariant.TouchKeeps | source/dvm_cache.c:215-223 | promotion changes no view and keeps the invariant |
| CacheModel.VictimIsFirstFree | source/dvm_cache.c:228-231 | the victim is the first unused entry, or the tail when every entry is in use |
| CacheModel.LookupAhead | source/dvm_cache.c:184-194 | in a direct request the entry in hand never lies behind the current page |
| CacheModel.DirectCount | source/dvm_cache.c:258-261 | a direct chunk is not empty, ends before the next resident page, and is short of the request only when it reaches that page |
| CacheModel.CurCount | source/dvm_cache.c:177-179 | a chunk is not empty and stays inside its page and the request |
| Runs.FlushFromKeeps | source/dvm_cache.c:116-130 | every dirty entry is attempted whatever failed before; exactly the ones whose own write succeeded become clean; the view never changes |
| Runs.FlushFromLogs | source/dvm_cache.c:122-130 | the device writes of a flush are the dirty intervals in list order, one for each dirty entry |
| Runs.FlushKeeps | source/dvm_cache.c:116-135 | success means every entry is clean and the device holds the view; the view never changes |
| Runs.FlushLogged | source/dvm_cache.c:116-135 | a flush succeeds exactly when the device accepts every write, and the final sync |
| Runs.CleanFlushWritesNothing | source/dvm_cache.c:92-97 | a flush of clean entries writes no sector |
| Runs.NarrowKeeps | source/dvm_prober.c:161-169 | replacing the size by a smaller one keeps the invariant and every remaining sector, with pages loaded under the old size |
| Runs.ExecAgrees | source/dvm_cache.c:148-284 | one operation keeps the agreement between view and history |
| Durability.WorkingFlushCleans | source/dvm_cache.c:116-135 | where writes work no dirty entry survives a flush |
| Durability.FlushedRunIsOnDevice | source/dvm_cache.c:137-146 | after a run that ends in a working flush every sector the history knows is on the device |
| Durability.DurableExactly | source/dvm_cache.c:137-146 | from any position of the log to one after a cache's last flush, and with any verdicts before it: what the history of the cache knows is on the disc beneath, whatever its users and others do, if and only if nobody in between used the discs beneath other than through the cache |
| Durability.DurableBeforeDestroy | source/dvm_cache.c:137-146 | in every owned state in which a cache is gone that was the only user of the discs beneath: it was flushed after everything that went through it, caches stacked on it included, and before the destructor of the disc it wraps, and if the device works from then on, every acknowledged write is on it when the destructor runs, whatever anybody does |
| Durability.ProbedDiscIsDurable | source/dvm_prober.c:240-262 | the same from the call that makes, wraps and probes a disc, over every legal run before and after in which nobody is handed the disc itself |
| Durability.SharedDiscLosesWrite | source/dvm_volume.c:43-101 | a legal run in which a second file system on the disc itself overwrites, between the cache's last flush and the disc's destructor, what the cache stored |
| SoleUse.ProbedDiscStaysAlone | source/dvm_prober.c:240-262 | a disc made and cached by probing, and never handed out, is used only through that cache, or caches stacked on it, in every later state |
| SoleUse.PerformAlone | source/dvm_volume.c:43-145 | every operation that hands over no disc beneath the cache keeps the cache their only user |
| SoleUse.SharedRunEnds | source/dvm_volume.c:43-145 | a legal run whose log has a file system touch the disc after the last flush of the cache and before the disc's destructor |
| Traffic.AllocatingTraffic | source/dvm_cache.c:160-253 | a request marked partial, shorter than a page or misaligned reads the device page by page, in order, only pages it touches, each at most once and none that it overwrites wholly, and writes only inside pages; after success its last page is resident, at the front of the list if it was accessed in part |
| Traffic.DirectTraffic | source/dvm_cache.c:160-275 | a request not marked partial, at least a page long and aligned asks only for transfers of its own kind inside its range, in order; after success they cover exactly the sectors that no page held |
| Traffic.ResidentNeedsNoDevice | source/dvm_cache.c:184-224 | a request whose pages are all resident succeeds and asks the device for nothing |
| Recency.StepMoves | source/dvm_cache.c:197-253 | an iteration moves and changes only the entry it uses; one past the cache moves none |
| Recency.EntrySurvives | source/dvm_cache.c:215-237 | an occupied entry other than the tail keeps its page through an iteration and falls back at most one place |
| Recency.AtMostTwoReassigned | source/dvm_cache.c:182-231 | one request of any length takes the page from at most two entries occupied at its start |
| Recency.WholePagesTakeOnlyTail | source/dvm_cache.c:182-231 | a request of whole pages leaves the list order as it was and takes at most the tail's page, once the list is full |
| Recency.DirectRequestCost | source/dvm_cache.c:256-280 | a direct request that crosses k resident pages makes at most k + 1 device transfers |
| Recency.OrderIsLastUse | source/dvm_cache.c:215-223 | after any sequence of promotions the list is ordered by last promotion, untouched entries behind in their first order |
| Recency.ListFollowsUses | source/dvm_cache.c:215-231 | over any run of operations the list is the first list with the partial accesses promoted in order |
| Recency.VictimIsLeastRecent | source/dvm_cache.c:228-231 | after any run and any number of iterations of the next request the victim of a refill is unused, or every entry is in use and the victim's last promotion is the oldest, promotions inside the request counted |
| Links.SpliceIsTouch | source/dvm_cache.c:215-223 | the six link updates move one entry to the front of the list, forward and backward chains alike |
| Links.UpdateData | source/dvm_cache.c:87-90 | overwriting one entry's window changes no other entry's sectors |
| DiscCache.LinkedCache.constructor | source/dvm_cache.c:346-366 | entries linked in array order, all unused and clean |
| DiscCache.Create | source/dvm_cache.c:313-369 | the page size is the larger of the size asked for, in 512-byte units with 32-bit wrap-around, and the block size; no cache is made exactly when that is no power of two, there are no pages or memory is missing; otherwise the entries are unused and the cache is sound for pages of at most 2^15 sectors; the inner disc is untouched either way |
| DiscCache.Log2 | source/dvm_cache.c:349-352 | the shift loop ends for every power of two, with its exponent |
| DiscCache.NewShowsDevice | source/dvm_cache.c:354-366 | an unused cache satisfies the invariant and shows the device's sectors |
| DiscCache.LinkedCache.Search | source/dvm_cache.c:59-85 | the loop over the links returns the entry the search function names |
| DiscCache.LinkedCache.GetData | source/dvm_cache.c:87-90 | an entry's window lies inside the data buffer |
| DiscCache.LinkedCache.EntryFlush | source/dvm_cache.c:92-114 | one dirty interval written from the buffer; the whole new state |
| DiscCache.LinkedCache.Flush | source/dvm_cache.c:116-135 | the loop over the links flushes as the flush function does |
| DiscCache.LinkedCache.MakeMostRecent | source/dvm_cache.c:215-223 | the links spell the list with the entry moved to the front |
| DiscCache.LinkedCache.PickVictim | source/dvm_cache.c:228-231 | walking back from the tail finds the victim |
| DiscCache.LinkedCache.TakeVictim | source/dvm_cache.c:228-251 | flush, rename and load of the victim; the whole new state on each exit |
| DiscCache.LinkedCache.HitPage | source/dvm_cache.c:198-224 | copy between buffer and window, dirty interval and promotion; the whole new state |
| DiscCache.LinkedCache.DirectTransfer | source/dvm_cache.c:264-274 | transfer between user buffer and device, successful or not |
| DiscCache.LinkedCache.NextChunk | source/dvm_cache.c:163-179 | the 32-bit masks give the page, the offset and the chunk length |
| DiscCache.LinkedCache.SearchIfNeeded | source/dvm_cache.c:184-194 | remembered entry and search base after the search, if one is due |
| DiscCache.LinkedCache.Chunk | source/dvm_cache.c:172-281 | one iteration in place reaches, on every exit, the result of the branch that the iteration function takes |
| DiscCache.LinkedCache.ReadWrite | source/dvm_cache.c:148-284 | the loop in place, as written, computes the request function: result, cache, device and buffer |
| Pages.MaskIsRemainder | source/dvm_cache.c:165-175 | masking with 2^k - 1 is the remainder by 2^k |
| Pages.ComplementMaskRoundsDown | source/dvm_cache.c:174-174 | masking with the complement rounds down to a multiple of 2^k |
| Pages.MasksSplitSector | source/dvm_cache.c:164-175 | both masks on 32-bit sector numbers split a sector into page and offset |
| Pages.PowerOfTwoTest | source/dvm_cache.c:321-321 | x & (x - 1) is zero exactly for powers of two |
| DirtyMarks.WidenCovers | source/dvm_cache.c:203-210 | a write is taken into the stored dirty interval exactly if its end is below 2^16, and then nothing drops out |
| DirtyMarks.SmallPagesCovered | source/dvm_cache.c:43-44 | with pages of at most 2^15 sectors every write is taken in |
| DirtyMarks.WholeWriteMarksDirty | source/dvm_cache.c:92-108 | writing a whole page of a clean entry marks it dirty exactly if pages have at most 2^15 sectors |
| DirtyMarks.LastSectorLost | source/dvm_cache.c:203-210 | with pages of 2^16 sectors a write is taken in exactly if it leaves out the last sector of the page |
| Pages.SlotsTile | source/dvm_cache.c:87-90 | the windows of different entries do not overlap and fill the buffer |
| Ownership.RemoveUserKeeps | source/dvm_disc.c:110-116 | letting go keeps the books; the discs that die are exactly the one let go of and those beneath it that nobody uses any more |
| Ownership.DestroyKeeps | source/dvm_cache.c:137-146 | destroying an unused disc runs each destructor once, flushes before the disc beneath can go, keeps the books, and takes along exactly the discs beneath that nobody uses any more |
| Ownership.MountKeeps | source/dvm_volume.c:43-101 | mounting keeps the books; it succeeds exactly when the file system comes up and the device table takes it, and then adds one volume on the disc and one name for it; it kills the disc exactly when the file system comes up, is refused and the disc had no other user; otherwise nothing is left behind |
| Ownership.UmountKeeps | source/fat_driver.c:176-182 | unmounting takes one user; the disc survives exactly when it was not the last |
| Ownership.UnmountKeeps | source/dvm_volume.c:119-145 | unmounting by name succeeds exactly for a mounted name and removes that name and its volume; every other name leads to the same volume on the same disc; the discs that die are exactly those the volume stood on that nobody uses any more |
| Ownership.MakeCacheKeeps | source/dvm_cache.c:336-346 | a new cache is one more user of the disc beneath and has none itself; nothing else changes |
| Ownership.ProbeKeeps | source/dvm_prober.c:208-238 | unless an attempt is fatal the disc survives probing with one more user for each volume mounted; no disc comes or goes, and new volumes lie on the probed disc |
| Ownership.FatalProbe | source/dvm_volume.c:76-79 | a fatal attempt destroys the disc, and counting a volume afterwards touches the dead disc |
| Ownership.ProbeInterfaceExact | source/dvm_prober.c:240-262 | the books are kept exactly when no attempt is fatal; then the new disc, and the new cache on it if one is asked for, live on exactly when something was mounted, with that many users of the probed one, and all older discs live on |
| Ownership.RefusedVolume | source/dvm_prober.c:257-259 | one partition, mounted and refused by the device table: releasing the volume runs the disc's destructor, and the prober calls it a second time |
| Ownership.EveryRunOwned | source/dvm_disc.c:104-116 | over every run of probing, wrapping, mounting, use and unmounting, user counts equal volumes plus caches, each disc is destroyed at most once, nothing touches a dead disc, and every dead cache was flushed after all that went through it or through caches stacked on it, and before the destructor of the disc beneath |
| Ownership.EveryTouchLogged | source/dvm_volume.c:43-145 | whenever a mount, an unmount, a probe or a mounted file system touches a disc the access is in the log before all it leads to |
| Ownership.NothingOwned | source/dvm_disc.c:83-101 | the empty system satisfies the ownership invariant |
| Volumes.DriverTable.Register | source/dvm_volume.c:23-41 | idempotent; refuses a second driver for a type and a ninth driver; otherwise appends |
| Volumes.DriverTable.Find | source/dvm_volume.c:45-52 | the driver registered for a type, if there is one |
| Volumes.Registry.RemoveUser | source/dvm_disc.c:110-116 | one user less, with the count in the disc object; if the books counted one user too many they are in order afterwards, and the disc survives exactly if it had users left |
| Volumes.Registry.Destroy | source/dvm_cache.c:137-146 | destroying an object nobody uses keeps the books; a cache is flushed and lets go of the disc object beneath |
| Volumes.Registry.MakeCache | source/dvm_cache.c:336-346 | a new object over the inner one: the books are kept, the inner disc has one more user and the cache none |
| Volumes.Registry.Umount | source/fat_driver.c:176-182 | the volume object is released and its disc survives exactly if that was not the last user; the books are kept |
| Volumes.Registry.MountPartition | source/dvm_volume.c:43-101 | succeeds exactly if the file system comes up and the device table takes the volume; then there is one volume and one name more; the books are kept, and the disc dies exactly if its only user was refused |
| Volumes.Registry.UnmountVolume | source/dvm_volume.c:119-145 | succeeds exactly for a name in the device table; that name and its volume object go and no other; the books are kept and the disc goes exactly with its last user |
| Volumes.Registry.ProbeDisc | source/dvm_prober.c:208-238 | the loop over partitions mounts as the probing function does; unless an attempt is fatal the disc lives on with one more user for each volume |
| Volumes.Registry.ProbeInterface | source/dvm_prober.c:240-262 | disc, cache, probing and giving up: books in order before are in order after exactly if no attempt is fatal |
| PartitionTable.TableIsLaidOut | source/dvm_prober.c:19-26 | the table has the entries whose status, type, start and length stand, lowest byte first, in the four records of 16 bytes from byte 446 on, and no others |
| PartitionTable.TableReadBack | source/dvm_prober.c:130-153 | a table written as bytes between any code and any rest is the table read back |
| PartitionTable.IdentByBytes | source/dvm_prober.c:52-103 | which bytes make a boot sector NTFS, exFAT, FAT, ext, a partition table or none of these |
| PartitionTable.FatGeometryByBytes | source/dvm_prober.c:71-91 | the fields, byte by byte, that make a FAT boot sector without a name |
| PartitionTable.WholeDiscListed | source/dvm_prober.c:107-128 | a first sector that is a boot sector itself gives one partition, the whole disc; one that is unreadable or unknown gives none |
| PartitionTable.EntriesListed | source/dvm_prober.c:132-152 | a table is refused exactly when an entry whose status is neither 0x80 nor 0 is met before the list is full; otherwise each entry that is neither empty nor extended stands at its rank with its number, type, start and length |
| PartitionTable.EntriesInOrder | source/dvm_prober.c:143-152 | listed partitions are used entries of the table, by increasing number |
| PartitionTable.PartsInside | source/dvm_prober.c:154-169 | in an accepted table a partition lies inside the disc size left behind exactly when its end fits in 32 bits; a known size stays, and an unknown one, all ones, becomes the largest end of any listed partition, or zero, unless the table is malformed |
| PartitionTable.TableAccepted | source/dvm_prober.c:161-187 | a well-formed table is accepted exactly when the size is unknown or no listed partition ends after it, and, if file systems are to be named, every partition's first sectors can be read |
| PartitionTable.WrappedEntryAccepted | source/dvm_prober.c:154-169 | a partition ending at 2^32 is accepted on a disc of any size and lies outside it |
| PartitionTable.NamedFromOwnSectors | source/dvm_prober.c:171-188 | naming succeeds exactly when every read does, and names each file system from its own partition's first sectors |
| PartitionTable.CachedTableNarrows | source/dvm_prober.c:105-169 | a cached disc that reads its own table, replaces an unknown size by the largest end, and then reads the first sectors of each partition: the table and the names come from the sectors the cached disc shows, the cache stays sound under the new size, every listed partition that does not wrap keeps its contents, and naming succeeds exactly when every partition's first sectors end by the new size and the device accepts all that is asked |
| PartitionTable.FatSizes | source/dvm_prober.c:28-31 | a FAT boot sector known by its geometry has sizes that are powers of two exactly if they are not zero |
| PartitionTable.ZeroSizedIsFat | source/dvm_prober.c:71-91 | a boot sector with sectors and clusters of size zero is taken for FAT |
| PartitionTable.MaxEndIsLargest | source/dvm_prober.c:154-157 | the running maximum is the largest end of any partition, and some partition's unless zero |
| PartitionTable.Disc.ReadPartitionTable | source/dvm_prober.c:105-206 | the reader in place: count, array and disc size on every exit, failures included; an unknown size is replaced by the largest end found |
| PartitionTable.Disc.ScanMbr | source/dvm_prober.c:130-189 | the same from the table on |
| PartitionTable.ScanEntries | source/dvm_prober.c:130-158 | the loop over the four entries fills the array from the front and finds the size needed |
| PartitionTable.NameParts | source/dvm_prober.c:171-187 | the second loop fills in file-system names until a read fails |
| Probing.PlanIsListed | source/dvm_prober.c:208-235 | exactly the listed partitions with a recognised file system are tried, in order, under the base name cut at 14 characters, with the digit 2, 3 or 4 for partitions after the first; without a partition the whole disc is tried as exFAT under the full base name |
| Probing.PlanNamesDiffer | source/dvm_prober.c:216-233 | no two volumes of one probe share a device name |
| Probing.ProbedVolumesReachable | source/dvm_prober.c:222-237 | probing counts exactly the names it gives out, each of which leads to a volume on the probed disc; no volume is unmounted, and one mounted before keeps its device exactly if its name was not given out again |
| Probing.ProbeMountDisc | source/dvm_prober.c:208-238 | table, names and mounts in place: disc size, books and count are those of the table read and of the attempts Probing.PlanIsListed describes |
| FatTime.PackedFields | source/fat_driver.c:231-243 | which bits of the two words hold year, month, day, hours, minutes and pairs of seconds |
| FatTime.PackThenUnpack | source/fat_driver.c:231-260 | a time survives packing, seconds rounded down to even, exactly in 1980 to 2107 |
| FatTime.UnpackThenPack | source/fat_driver.c:245-260 | every pair of date and time words survives unpacking |
| FatTime.PackKeepsOrder | source/fat_driver.c:231-243 | packed words compare as the times they stand for |
| FatTime.UtimesReadBack | source/fat_driver.c:618-635 | both times set on a file are the ones read back; no creation time is set |

## Left out

- Requests.PermittedRequestTransparent: a request outside the guard is not promised transparency, because the loop as written does not give it; the refreshed loop does.
- DiscCache.Create: for pages of more than 2^15 sectors only the new cache itself is described, not its routines, because the dirty fields are 16 bits wide; overflow of the byte sizes it allocates is not modelled.
- Durability.DurableBeforeDestroy: asks that the cache was the only user of the discs beneath, because otherwise the promise is not kept (Durability.DurableExactly).
- What a cache beneath another cache does inside is not followed in the theorems on durability: they take it as the sectors it shows. Its own flush is another instance of them.
- Ownership.EveryRunOwned: asks that the device table does not refuse the volume of a disc's only user, because the disc is then destroyed twice; the 16-bit user count is a natural number and does not wrap.
- PartitionTable.PartsInside: says nothing about entries beyond the number of partitions asked for; an unknown size may end before them.
- Locks and interleavings: each public cache operation runs under one lock and is one atomic step.
- The block device is modelled by its sectors and an oracle for failures; a failed transfer may leave anything in the sectors or buffer it addressed. Start-up, insertion checks and shutdown are one event.
- Whether a buffer is suitably aligned is a boolean fixed for each request.
- Destruction is noted when a destructor is entered; freeing of memory at its end is not modelled apart from it.
- Contents of memory that was never written: the model gives new sectors a fixed value and never lets them be seen.
- The mount routines of FatFs and lwext4, formatting of blank media, and what drivers do on a mounted volume: an attempt to mount has a given outcome, and file-system traffic is any sequence of cache operations.
- The device table is a map from names to volumes in which a name entered again leads to the newer volume; a refused volume is a given outcome. Default device, current directory and the colon in device names are not modelled.
- Disc and volume objects carry a flag that stands for the allocator: a touch of memory that was freed is noted instead of carried out.
- Null arguments and partial initialisation in `dvmInit`.
- Error numbers, file status, path and flag translation in the drivers.
- Platform start-up in `source/nitrofs.c`, `source/dvm_calico.c`, `source/dvm_libgba.c` and `source/dvm_libogc2.c`.
- `localtime` and `mktime`: times are broken down already.
