# BufferPool and Database catalog, modelled in Dafny

This project models the page cache of a small disk-backed database: the
`BufferPool` (50 page slots, an index from page id to slot, a
least-recently-used list, a free-slot stack and a dirty set) and the
`Database` catalog of files that the pool reads pages from and writes them
back to.

The model has three layers.

- **Pure specification** (`types.dfy`, `files.dfy`, `pool_spec.dfy`). The
  pool's bookkeeping is a value `Pool`. Each pool operation is a function
  from the state before the call to a `Step`: the result, the pool, the
  catalog and the page transfers (reads and writes) performed, in order. The
  catalog is a `map<string, DbFile>`, and a `DbFile` is its name plus the
  contents of its pages.
- **Lemmas** (`pool_lemmas.dfy`, `flush_lemmas.dfy`, `fetch_sequence.dfy`).
  They cover:
  - the pool invariant (index and occupied slots in bijection, the recency
    list a permutation of the resident pages, dirty pages resident, free
    slots distinct and unoccupied);
  - slot conservation (free plus occupied slots number 50);
  - the hit, miss and eviction rules of `getPage`;
  - exactly-once write-back by `flushPage`, `flushFile` and the destructor;
  - the error paths of the source;
  - any run of fetches of available pages, repeats included, touching at
    most 50 distinct pages, into a pool where nothing is resident or dirty
    and no slot is lost, keeps every page it touched resident (a run that
    starts in a pool already holding other pages can evict);
  - a run of 51 fetches that evicts the first page fetched.
- **Imperative model** (`db.dfy`). It has a `BufferPool` class and a
  `Database` class.
  - The slots are a fixed `array<Page>`. The other pool members are fields
    that the methods reassign.
  - A ghost `log` records every transfer.
  - Each method is proved to do to its object what the matching
    specification function does to the state.

C++ exceptions become `Result`/`Outcome` values with an `Error`:
- `NullFile` and `DuplicateName`: the `add` errors;
- `NoSuchFile`: `get` and `remove`, and lookups made by the pool;
- `ReadFailed`: a page the file does not hold;
- `NoFreeSlot`: the `logic_error` in `getPage`.

Two error paths of the source are modelled as written. On both, a failed
`getPage` leaves the pool in a different state from the one it had before
the call: the code does not restore its bookkeeping when an exception
propagates.

- **A miss whose file lookup or page read fails.** The free slot or the
  evicted victim's slot has already been claimed. It is then neither free
  nor occupied, so the invariant still holds but one slot is lost for good.
  After 50 such failures the pool is empty with no free slot, and the
  "no free slots" error becomes reachable. In a valid pool this is the only
  way to reach it (`PoolLemmas.NoFreeSlotOnlyWhenAllLost`). The error can
  also be reached after a failed write-back (below), once further evictions
  have emptied the recency list while the stale victim is still indexed;
  `getPage` is not specified in that state.
- **An eviction whose write-back fails.** The victim has already been popped
  from the recency list, but it stays in the index and the dirty set, with
  its slot untouched (`PoolLemmas.FetchEvictWriteBackFails`). `flushFile`
  and the destructor still find it, and write it back once a file of that
  name is added again. Until then `flushFile` of that name fails with
  NoSuchFile and writes nothing; the destructor fails with NoSuchFile when
  it reaches the victim, after writing any dirty pages of registered files
  listed before it; and `remove` of that name fails with NoSuchFile before
  flushing.
  Its recency entry is gone, so the invariant is broken and the page can no
  longer be chosen as a victim.

## Model

| member | source | states |
|---|---|---|
| Files.ReadPage | src/db/BufferPool.cpp:61 | the disk abstraction standing in for `DbFile::readPage` (not part of this model): reading page n succeeds exactly when the file holds page n, and gives its contents; otherwise the error names the file and the page |
| Files.WritePage | src/db/BufferPool.cpp:108 | after a write the page reads back as the data written, every other page reads as before, and the file keeps its name |
| Files.Lookup | src/db/Database.cpp:41-47 | `get` succeeds exactly for a registered name and returns that entry, whose own name is the name asked for; otherwise NoSuchFile(name) |
| Files.AddFile | src/db/Database.cpp:13-23 | a null file gives NullFile and a taken name gives DuplicateName, with the catalog unchanged; otherwise the file is found under its own name and every other lookup is unchanged |
| Files.RemoveFile | src/db/Database.cpp:25-38 | an unknown name gives NoSuchFile; otherwise the registered file is handed back, the name is no longer found and every other lookup is unchanged |
| Files.AddThenRemove | src/db/Database.cpp:13-38 | removing a file just added hands back that file and restores the catalog |
| Files.RemoveThenAdd | src/db/Database.cpp:13-38 | adding back the file just removed restores the catalog |
| PoolSpec.Init | src/db/BufferPool.cpp:7-11 | the new pool satisfies the invariant, has all 50 slots free and nothing resident, recent or dirty |
| PoolSpec.Erase | src/db/BufferPool.cpp:27-30 | erasing from the recency list removes exactly that page and keeps the list free of repetitions |
| PoolSpec.FlushPage | src/db/BufferPool.cpp:101-110 | flushing changes no slot or index and only clears dirty marks (of `pid` only); it fails only with NoSuchFile for an unregistered file, and no file is added or removed |
| PoolSpec.FlushAll | src/db/BufferPool.cpp:119 | flushing a list clears only dirty marks of listed pages; a failure is NoSuchFile for an unregistered file |
| PoolSpec.MarkDirty | src/db/BufferPool.cpp:69-72 | the `markDirty` step: only the dirty set can change, by adding `pid` at most, and `pid` ends dirty exactly when it was dirty or is resident |
| PoolSpec.Discard | src/db/BufferPool.cpp:84-99 | the `discardPage` step: an absent page changes nothing; otherwise its slot is pushed on the free stack, it leaves the index, recency list and dirty set, the other pages keep their slots, and the slot contents are untouched |
| PoolSpec.Load | src/db/BufferPool.cpp:60-67 | the load half of a miss: it succeeds exactly when the file is registered and holds the page, and never changes the catalog |
| PoolSpec.Fetch | src/db/BufferPool.cpp:22-68 | the `getPage` step (hit, miss into a free slot, or eviction of the least recently used page with write-back when dirty, then load); a returned slot is one of the 50; its other properties are stated by the lemmas `FetchHit`, `FetchMissFree`, `FetchEvict` and `FetchKeepsInv` |
| PoolLemmas.FetchHit | src/db/BufferPool.cpp:24-34 | a hit returns the page's slot and puts it at the front; the others keep their relative order; slots, index, dirty set and catalog are unchanged; no transfer; the invariant and slot count are kept |
| PoolLemmas.PopFree | src/db/BufferPool.cpp:36-39 | the slot popped from the free stack is in range, not free any more and not occupied |
| PoolLemmas.InsertKeepsInv | src/db/BufferPool.cpp:63-67 | registering a page in an unused slot keeps the invariant and adds one resident page |
| PoolLemmas.LoadResult | src/db/BufferPool.cpp:60-67 | the read succeeds exactly when the file is registered and holds the page; then the page fills the slot, is indexed there and is most recent, with one read; otherwise nothing else changes and the error is NoSuchFile or ReadFailed |
| PoolLemmas.FetchMissFree | src/db/BufferPool.cpp:36-67 | a miss with a free slot takes the top of the free stack and evicts nothing; on success one read fills that slot; on failure the slot is lost (one fewer slot accounted for) |
| PoolLemmas.DropVictim | src/db/BufferPool.cpp:46-56 | removing the back of the recency list from index and dirty set keeps the invariant and frees the victim's slot for reuse |
| PoolLemmas.WriteBackVictim | src/db/BufferPool.cpp:52 | a dirty victim of a registered file is written once with its slot's contents; a clean victim is not written |
| PoolLemmas.FetchEvict | src/db/BufferPool.cpp:40-67 | on a full pool the victim is the least recently used page; a dirty victim is written back exactly once before its slot is refilled; afterwards it is neither resident nor dirty; on success the new page takes the victim's slot |
| PoolLemmas.FetchEvictWriteBackFails | src/db/BufferPool.cpp:46-52 | when the dirty victim's file is unregistered, the call fails with the victim out of the recency list but still indexed and dirty, so the invariant is broken; slots stay in range and dirty pages resident |
| PoolLemmas.NoFreeSlotOnlyWhenAllLost | src/db/BufferPool.cpp:42-45 | the "no free slots" error happens exactly when no slot is free and nothing is resident, which slot conservation rules out |
| PoolLemmas.FetchKeepsInv | src/db/BufferPool.cpp:22-68 | `getPage` keeps the invariant unless a dirty victim's write-back fails; on success the page is resident at the returned slot, most recent, and no slot is lost |
| PoolLemmas.FetchKeepsNames | src/db/BufferPool.cpp:22-68 | `getPage` keeps every file registered under its own name |
| PoolLemmas.MarkDirtyKeepsInv | src/db/BufferPool.cpp:69-72 | `pid` becomes dirty exactly when resident; no other mark or field changes; the invariant is kept |
| PoolLemmas.DiscardKeepsInv | src/db/BufferPool.cpp:84-99 | a resident page's slot returns to the free stack and the page leaves index, recency list and dirty set, without a write; other pages keep their slot and mark; an absent page changes nothing |
| PoolLemmas.CleanerKeepsInv | src/db/BufferPool.cpp:109 | clearing dirty marks keeps the invariant and the slot count |
| PoolLemmas.FlushPageSpec | src/db/BufferPool.cpp:101-110 | exactly one write iff `pid` is resident, dirty and its file registered; the file then reads back the slot's contents and nothing else on disk changes; it fails iff resident and dirty with an unregistered file; only `pid`'s mark is cleared; a page that is not resident or not dirty is a no-op (pool, catalog and log unchanged), and a failure changes nothing, so `pid` stays dirty |
| FlushLemmas.FlushAllWriteStep | src/db/BufferPool.cpp:119 | flushing one more resident dirty page of a registered file writes its slot's contents and clears only its mark |
| FlushLemmas.FlushAllWritesEach | src/db/BufferPool.cpp:112-120 | flushing distinct resident dirty pages of registered files succeeds, writes each exactly once, in order, with its slot's contents, and clears exactly their marks |
| FlushLemmas.FlushAllDisk | src/db/BufferPool.cpp:112-120 | after those flushes each listed page reads back its slot's contents, and no other page of any file changes |
| FlushLemmas.FlushAllKeepsNames | src/db/BufferPool.cpp:119 | flushing a list keeps every file registered under its own name |
| FlushLemmas.FlushAllSnoc | src/db/BufferPool.cpp:119 | after a successful run over all but the last page, flushing the whole list gives the last page's `flushPage` outcome, pool and catalog, with the transfers of the run followed by those of the last page |
| FlushLemmas.FlushPageDisk | src/db/BufferPool.cpp:107-108 | a flushed page's file gets the slot's contents at that page |
| FlushLemmas.FlushAllStopsAtFirst | src/db/BufferPool.cpp:119 | when the first page cannot be written back, the loop stops with nothing written |
| FlushLemmas.FlushAllPrefix | src/db/BufferPool.cpp:119 | one more iteration after a successful prefix is one `flushPage` |
| FlushLemmas.FlushAllAfterFail | src/db/BufferPool.cpp:119 | after a failed `flushPage` the rest of the list has no effect |
| FlushLemmas.FlushAllPassNeedsFiles | src/db/BufferPool.cpp:119 | flushing resident dirty pages succeeds only if all their files are registered |
| FlushLemmas.FlushFileSpec | src/db/BufferPool.cpp:112-120 | when the file is registered (or has no dirty page): each dirty page of the file is written once with its slot's contents, none stays dirty, they stay resident, and other files' marks are unchanged; otherwise it fails and changes nothing |
| FlushLemmas.CloseSpec | src/db/BufferPool.cpp:13-19 | the destructor's flush succeeds iff every dirty page's file is registered; then every dirty page is written exactly once with its slot's contents and nothing stays dirty |
| FetchSequence.FetchAll | src/db/BufferPool.cpp:22-68 | a run of `getPage` calls that all succeed keeps the invariant |
| FetchSequence.FetchAllSnoc | src/db/BufferPool.cpp:22-68 | a run of fetches is the run without its last fetch, then that fetch |
| FetchSequence.FetchAllMissFree | src/db/BufferPool.cpp:36-39 | a further miss with a free slot reads the page into the top free slot and makes it most recent |
| FetchSequence.FetchAllEvictClean | src/db/BufferPool.cpp:40-57 | a further miss on a full pool with a clean least recent page replaces that page in its slot and writes nothing |
| FetchSequence.FillResident | src/db/BufferPool.cpp:36-67 | fetching up to 50 distinct available pages into an empty, conserved pool succeeds; exactly those pages are resident, none dirty, and each took one free slot |
| FetchSequence.FetchIntoFreeSlot | src/db/BufferPool.cpp:36-67 | a miss on an available page while fewer than 50 pages are resident and no slot is lost succeeds and adds exactly that page to the resident ones, dirty set unchanged |
| FetchSequence.FetchAllWithoutEviction | src/db/BufferPool.cpp:22-39 | after a run that left nothing dirty and no slot lost, one more fetch of an available page that is resident or fits succeeds and adds exactly that page to the resident ones |
| FetchSequence.FillWithRepeats | include/db/BufferPool.hpp:65-70 | any run of fetches of available pages, repeats included, touching at most 50 distinct pages, into an empty conserved pool, succeeds without eviction; exactly the pages touched are resident, none dirty, no slot lost |
| FetchSequence.FillOrder | include/db/BufferPool.hpp:24-25 | after fetching distinct available pages into an empty conserved pool (as in `FillResident`), the recency list holds the pages most recent first, and the transfers are one read per page, in order |
| FetchSequence.FillFromEmpty | src/db/BufferPool.cpp:7-11 | from a new pool, up to 50 distinct available pages are all resident, the recency list holds exactly them, most recent first, with CAPACITY − \|ps\| free slots and one read each |
| FetchSequence.FullFromEmpty | src/db/BufferPool.cpp:36-67 | 50 fetches of distinct available pages into a new pool succeed and fill it: no free slot, nothing dirty, exactly those pages resident, the first one fetched least recently used |
| FetchSequence.FirstFetchedEvicted | include/db/BufferPool.hpp:65-70 | after 51 fetches of distinct available pages into a new pool, the first page fetched is no longer resident and all the others are |
| FetchSequence.FirstFetchedEvictedReads | include/db/BufferPool.hpp:65-70 | those 51 fetches read each page once, in order, and write nothing |
| Db.BufferPool.constructor | src/db/BufferPool.cpp:7-11 | the new pool's state is the initial pool: slots 0 to 49 pushed on the free stack, nothing resident |
| Db.BufferPool.GetPage | src/db/BufferPool.cpp:22-68 | result, slots, index, recency list, free stack, dirty set, catalog and transfer log are exactly those of the `getPage` step function; a well-named catalog stays well named |
| Db.BufferPool.MarkDirty | src/db/BufferPool.cpp:69-72 | the new state is the `markDirty` step function's; the invariant is kept |
| Db.BufferPool.IsDirty | src/db/BufferPool.cpp:74-77 | in a valid pool only a resident page is dirty |
| Db.BufferPool.Contains | src/db/BufferPool.cpp:79-82 | in a valid pool a page is resident exactly when it is in the recency list |
| Db.BufferPool.DiscardPage | src/db/BufferPool.cpp:84-99 | the new state is the `discardPage` step function's, with no transfer; the invariant is kept |
| Db.BufferPool.FlushPage | src/db/BufferPool.cpp:101-110 | outcome, dirty set, catalog and log are those of the `flushPage` step function; the invariant is kept and a well-named catalog stays well named |
| Db.BufferPool.FlushEach | src/db/BufferPool.cpp:119 | the flush loop does what flushing the list one page at a time does, stopping at the first failure; a well-named catalog stays well named |
| Db.BufferPool.FlushFile | src/db/BufferPool.cpp:112-120 | on any pool whose slots are in range, including one left by a failed eviction write-back: the collected list holds each dirty page of the file exactly once; the outcome and new state are those of flushing that list; a valid pool stays valid; a well-named catalog stays well named |
| Db.BufferPool.Close | src/db/BufferPool.cpp:13-19 | on any pool whose slots are in range, including one left by a failed eviction write-back: the collected list holds each dirty page exactly once; the outcome and new state are those of flushing that list; a well-named catalog stays well named |
| Db.Database.Get | src/db/Database.cpp:41-47 | succeeds exactly for a registered name, returning its entry, which carries that name; otherwise NoSuchFile(name) |
| Db.Database.constructor | include/db/Database.hpp:19-24 | an empty catalog and a new pool in its initial state |
| Db.Database.Add | src/db/Database.cpp:13-23 | the outcome and catalog are those of the catalog's add function; a well-named catalog stays well named |
| Db.Database.Remove | src/db/Database.cpp:25-39 | on any pool whose slots are in range and whose dirty pages are resident (including one left by a failed eviction write-back): an unknown name gives NoSuchFile and changes nothing; otherwise the file's dirty pages are flushed (always successfully), then it is handed back holding its slots' contents and unregistered; its pages stay resident and none stays dirty; other files' marks are unchanged; a valid pool stays valid; a well-named catalog stays well named |

## Left out

- `DbFile` is not part of this model. Its reads and writes are the functions
  `Files.ReadPage` and `Files.WritePage`:
  - a read fails only for a page the file does not hold;
  - a write never fails;
  - the on-disk format, page size and byte contents are not modelled.
- A failed `readPage` is assumed to leave the claimed slot's contents
  unchanged. The C++ reads straight into the slot.
- The `getDatabase()` singleton is replaced by a `Database` argument to the
  pool methods that consult the catalog. `getBufferPool` is the constant
  field `bufferPool`.
- `pos_` (the iterator map) is not modelled: positions in the `lru` sequence
  stand for it. Neither is `PageIdHash`: Dafny maps and sets are keyed on the
  `PageId` datatype.
- Ownership (`unique_ptr` moves, deleted copy and move constructors) is
  represented by values.
  - `add`'s null pointer is `Option.None`.
  - `getPage` returns the slot number instead of `Page&`; callers reach the
    page through the `pages` array.
- `free_.reserve` is left out, as a capacity hint only.
- The iteration order of the `unordered_set` of dirty pages is not modelled.
  `FlushFile` and `Close` pick pages in an arbitrary order and return it as
  a ghost `order`. Their contracts hold for every such order.
- Db.BufferPool.GetPage: requires a valid pool. Calls made after an eviction
  whose write-back failed are not specified, because the pool is left
  invalid and the C++ is left with a dangling recency iterator: a later
  `getPage` hit on the victim (src/db/BufferPool.cpp:27-29) or
  `discardPage` of it (src/db/BufferPool.cpp:92-94) erases through that
  iterator, which the C++ leaves undefined. `Db.BufferPool.DiscardPage` has
  no such precondition, so the model gives that discard a defined result
  (the victim leaves the index and dirty set and its slot is freed) that the
  C++ does not promise. `flushFile`, the destructor and `remove` are
  specified in that state.
- Db.BufferPool.Close: a failed write-back is returned as `Fail`. In C++ an
  exception escaping the destructor ends the program, because destructors are
  `noexcept`; that is not modelled.
- Db.Database.Remove: requires that every dirty page be resident. The C++
  demands nothing: its `flushPage` skips a dirty page that is not indexed.
  Every state the model reaches satisfies this, including the one a failed
  eviction write-back leaves behind.
