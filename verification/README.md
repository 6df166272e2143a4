# A verified model of the mini database engine

This project models the storage engine of a small relational database as one layered,
sequential system, and proves what each layer promises to the one above it: from the clock
replacer up to the statements of the executor. Everything is Dafny 4.11; `dafny verify
dfyconfig.toml` checks the whole project.

## The layers

| layer | files |
|---|---|
| bytes and identifiers | Common, ByteFormat |
| buffer pool | ClockReplacer, DiskManager, PoolState, PoolRun, BufferPool |
| heap files | SlottedFormat, SlottedPage, PageChain, HeapState, HeapScan, HeapFile |
| hash index | BucketFormat, BucketPage, HashIndexHeaderPage, IndexState, IndexOutcome, IndexCount, HashIndex |
| codecs | RecordFormat, RecordCodec, IndexKey |
| tables | TableState, TableOutcome, TableRoom, TableStorage |
| catalog | CatalogFormat, CatalogRefusal, Catalog, CatalogManager, TableEntry |
| queries | Query, Comparison, Operators, Planner, Selection, StatementOutcome, Executor |
| schema statements | ColumnDefinition, IndexBuild, IndexLeak, DataDefinition |
| the whole engine | PageTag, Database, Engine, TableLoad, Restart, EngineRun, NameRun, Guarantee, Session |
| examples | FormatExample, SmallEngine, LeakExample, NameExample |

Objects that the program updates in place are classes with the same fields, pages are byte
arrays, and loops are loops. Beside each class stands a file of specification functions and
lemmas on values. The link between them is the page store: `BufferPoolManager.Store()` maps
every allocated page id to its bytes, wherever they are kept, and `Pins()` counts the pins.
The layers above the pool use only these two. What the bytes mean is defined on the store:
`HeapRows` is the map from record ids to records of a heap file, `IndexPairs` the set of
key/record pairs of an index, `TableOk` says that heap and indexes are in order, share no
page and agree, `DbOk` that the allocated pages are the disjoint union of page 0, the pages
of the tables and the pages `lost`, which no table owns, and `EngineOk` that the catalog, in
memory and on page 0, names just these tables. Which pages are lost follows from the rest
(`LostIsDetermined`).

The top is a state machine. `EngineRuns.Step` says what each kind of statement does, put
together from the outcomes that the methods below ensure; `Session.Execute` dispatches a
statement as the executor does, and its contract says that under `Ready()` the state before
and the state after are such a step. What is proved of steps and of runs therefore holds of
the methods: `Session.Serve` ensures a run, and `RunProgram` opens a file, serves and closes.

## Conditions

- The disk is an in-memory sequence of pages. Every read and write may fail, and a failed
  write leaves arbitrary bytes, unless the disk is `reliable`. The disk has room for
  `capacity` pages, at most 2^31; on a reliable disk a page can be allocated exactly if fewer
  are allocated, and so OUT_OF_MEMORY is a function of the state.
- `Ready()` means that the disk is reliable and that at least one frame is not pinned. No
  operation ever needs a second frame and each gives its pins back, so under `Ready()`
  failures other than a lack of pages or of room do not occur. Atomicity, and that no page
  is leaked, are claimed under `Ready()`. Structure, restored pins, and the full effect of a
  successful mutation hold without it, except where a contract says otherwise.
- A free page must not be fetched (src/buffer/buffer_pool_manager.cpp:98). This is a
  precondition of `FetchPage`; the ownership of pages by heap files and indexes discharges it.
- The planner finds an index by the string "table.column" (src/query/executor.cpp:806-855).
  What `Step` says of SELECT, UPDATE and DELETE therefore depends on `OwnPlan`: the entry that
  decides the plan is one of the table itself. `OwnPlan` holds for all conditions exactly if
  no entry of another table has a key that starts with the table name and a dot
  (`OwnPlanExactly`), and so whenever no table name continues another one after a dot. Runs
  that create no table with a dot in its name keep it that way (`RunPlansAreOwn`). SQL text
  cannot name such a table (src/query/tokenizer.cpp:125-133), but a caller of
  `QueryExecutor::Execute` can.
- Pages of a well-formed heap file or index are always initialized and their chains are
  acyclic. The branches for damaged pages and for cycles are therefore proved unreachable in
  `HeapFile` and `HashIndex` (`assert false`), not left out.

## Results worth knowing

- Undo cannot fail on a working disk: the slot that removing a pair frees takes the old pair
  back, and a record that has been replaced always fits back into its page.
- `ExecuteCreateIndex` loses pages for an empty index name only: the catalog refuses the
  name before it takes the finished index over (src/catalog/catalog_manager.cpp:868-876) and
  the executor does not destroy it (src/query/executor.cpp:591-596). With any other name
  every failure on a working disk leaves the store as it was. With an empty name the
  statement always fails. If no index could be built nothing changes; if one could, either
  no page was left and nothing changes, or the status is INVALID_ARGUMENT and a complete
  index stays behind: page 0 and all tables are as before, and just the pages of this index
  are lost, however the tables are listed. `LeakExamples` has the smallest such engine. The
  run theorems take the leak in as a step: order is kept, rows are kept, and a restart gives
  the same pages, the lost ones among them.
- With tables "a.b"("c"), which has an index on "c", and "a"("b.c"), a condition "b.c" = 5 on
  table "a" is looked up in the index of table "a.b". SELECT then answers OK without any row
  of table "a", and UPDATE and DELETE change nothing: the storage layer refuses record ids
  of another table (`ForeignPlanMisses`). `NameExamples` has such an engine with a row
  that satisfies its WHERE and is not shown.
- If writing page 0 to the file fails after the bytes have been copied into the pool,
  CreateTable and CreateIndex take the entry out of memory again while page 0 in the pool
  keeps the catalog with it (src/catalog/catalog_manager.cpp:722-738, 797-801, 932-951).
  `TableEntered` and `IndexGivenBack` say for IO_ERROR that page 0 is as before or holds just
  that catalog. On a working disk this does not occur.
- Load does not restore every catalog that Persist stores: `CatalogManager::CreateTable`
  takes a column without a name (src/catalog/catalog_manager.cpp:751-804), which Load refuses.
  A stored catalog loads again exactly if every column has a name
  (`ReadsBackExactlyIfNamed`); CREATE TABLE checks that before (src/query/executor.cpp:375-382).
- On a working disk `Step` says for every kind of statement, by a condition on the state, the
  statement and the size of the disk, whether it succeeds. INSERT and an UPDATE of one row
  succeed exactly if the values can be a row (`InsertableMeans`) and there is room: in a page
  of the file, or in place of the old record, and on the disk for a page of the file and of
  each bucket that has none (`RoomForRow`, `RoomForUpdate`). An UPDATE of several rows stops
  at the first row for which this fails in the state that the rows before it have led to.
  CREATE TABLE succeeds exactly if a page is left and the entry fits on page 0; CREATE INDEX
  on a column whose values have keys exactly if the disk has the header page and, for each of
  the 64 buckets, a page for every 53 pairs begun (`IndexNeeds`), and the entry fits.
- What a WHERE clause means is stated without the code that evaluates it: an order of
  integers, an order of texts by their first difference, equality for all types, in the first
  column of that name (`Holds`, `HoldsIn`, `AllHoldIs`). So is what CREATE TABLE declares
  (`Declares`) and which values its columns take (`Accepts`).
- A record whose page cannot be fetched reads as NOT_FOUND (src/storage/heap_file.cpp:238-242)
  and the index scan skips it (src/query/operators/index_scan_operator.cpp:50-58), so that the
  index plan and the scan agree is claimed for a working disk. There, if the index is one of
  the table, they agree as multisets, and the collected rows are exactly those that satisfy
  WHERE.
- Opening a file finds exactly the pages that were free if and only if no allocated page
  other than page 0 is all zero; the pages of tables and indexes never are.
- Section 1 of docs/file_format.md says that page 0 points to a list of free pages. The
  code, and sections 5 and 6 of that document, keep the catalog there and find free pages by
  their zero bytes; the model follows the code.

## Model

| member | source | states |
|---|---|---|
| Clock.VictimExists | src/buffer/clock_replacer.cpp:11-52 | a victim exists exactly when some frame is evictable |
| Clock.VictimIsUnique | src/buffer/clock_replacer.cpp:11-52 | the victim is determined: the first unreferenced evictable frame from the hand on, or else the first evictable one |
| Clock.PassOne | src/buffer/clock_replacer.cpp:18-35 | what one step of the hand does: it spares a referenced frame once and takes an unreferenced evictable one |
| Clock.DrainReturnsEachOnce | src/buffer/clock_replacer.cpp:11-52 | successive calls with nothing pinned in between return each evictable frame exactly once and then stop |
| Clock.ClockReplacer.Victim | src/buffer/clock_replacer.cpp:11-52 | takes exactly the victim of the state, moves the hand behind it and removes only that frame; fails exactly when no frame is evictable |
| Clock.ClockReplacer.EvictUnreferenced | src/buffer/clock_replacer.cpp:16-35 | the first pass finds the first unreferenced evictable frame, having cleared the references it passed |
| Clock.ClockReplacer.EvictFirst | src/buffer/clock_replacer.cpp:37-51 | the second pass finds the first evictable frame when all were referenced |
| Clock.ClockReplacer.Pin | src/buffer/clock_replacer.cpp:54-60 | exactly that frame is no longer evictable, and its second chance is gone |
| Clock.ClockReplacer.Unpin | src/buffer/clock_replacer.cpp:62-68 | exactly that frame becomes evictable, with a second chance |
| Clock.ClockReplacer.Size | src/buffer/clock_replacer.cpp:70-77 | counts the evictable frames |
| Disk.DiskManager.Open | src/storage/disk_manager.cpp:20-123 | the free pages of an opened file are exactly its all-zero pages other than page 0; an empty file gets page 0 |
| Disk.DiskManager.WritePage | src/storage/disk_manager.cpp:134-192 | writes one page or appends one; a failed write may tear that page only; gaps are refused; the free pages of a working disk stay zero unless the page written is one of them |
| Disk.DiskManager.ReadPage | src/storage/disk_manager.cpp:194-247 | returns the bytes of an existing page; NOT_FOUND past the end |
| Disk.DiskManager.AllocatePage | src/storage/disk_manager.cpp:249-293 | the smallest free page if there is one, else one more page; zeroed; on a working disk it fails exactly if no page is free and the disk is full; a failure leaves the free set and all allocated pages as they were, and on a disk that fails may tear the free page |
| Disk.DiskManager.DeallocatePage | src/storage/disk_manager.cpp:295-322 | the page is zero and free afterwards, or stays allocated with torn bytes if the disk failed |
| PoolStates.NoFrameIsLost | src/buffer/buffer_pool_manager.cpp:62-322 | free and resident frames add up to the pool, and evictable and pinned pages to the resident ones: no frame is ever lost or counted twice |
| PoolStates.TableInjective | src/buffer/buffer_pool_manager.cpp:62-322 | two pages never share a frame |
| PoolStates.ReplaceFrame | src/buffer/buffer_pool_manager.cpp:150-174 | changing one resident frame changes the contents and pin count of that page only |
| PoolStates.ChangeFile | src/buffer/buffer_pool_manager.cpp:176-203 | writing to the file under dirty pages changes no contents |
| PoolStates.TakingAFrame | src/buffer/buffer_pool_manager.cpp:84-147 | when a page takes a frame, free or evicted, no other page changes contents or pin count, provided the loser is safe in the file |
| PoolStates.SafeToFetch | src/buffer/buffer_pool_manager.cpp:95-147 | writing the victim back first makes the eviction of FetchPage safe |
| PoolStates.SafeToAllocate | src/buffer/buffer_pool_manager.cpp:205-270 | the same for NewPage, whose page was not allocated before |
| PoolStates.DropPage | src/buffer/buffer_pool_manager.cpp:272-298 | deleting an unpinned page changes nothing but that page |
| PoolStates.NoRoomMeansAllPinned | src/buffer/buffer_pool_manager.cpp:84-93 | no frame can be had only if every frame holds a pinned page |
| Buffer.BufferPoolManager.constructor | src/buffer/buffer_pool_manager.cpp:9-36 | a new pool shows exactly the allocated pages of the file, with nothing pinned |
| Buffer.BufferPoolManager.FetchPage | src/buffer/buffer_pool_manager.cpp:62-148 | shows the page its last bytes and pins it once more; a failure changes no contents and no pins, the page is then not resident, and on a working disk every frame is pinned |
| Buffer.BufferPoolManager.LoadPage | src/buffer/buffer_pool_manager.cpp:82-148 | the branch of FetchPage for a page that is not resident; every failure hands the frame back |
| Buffer.BufferPoolManager.WriteBack | src/buffer/buffer_pool_manager.cpp:115-128 | a dirty victim is written to the file before it is evicted; on failure its frame is evictable again |
| Buffer.BufferPoolManager.Seat | src/buffer/buffer_pool_manager.cpp:130-147 | the page takes the frame: table, pin, clean bit and replacer change together |
| Buffer.BufferPoolManager.UnpinPage | src/buffer/buffer_pool_manager.cpp:150-174 | one pin less, contents unchanged, the page dirty if it was or the caller says so; refused exactly for a page without pins |
| Buffer.BufferPoolManager.FlushPage | src/buffer/buffer_pool_manager.cpp:176-203 | after success the file holds the current bytes of the page, which is clean; nothing else changes |
| Buffer.BufferPoolManager.NewPage | src/buffer/buffer_pool_manager.cpp:205-270 | a page that was not allocated, zeroed and pinned once, or no change at all; with a working disk and a frame it fails exactly if the disk is full |
| Buffer.BufferPoolManager.DeletePage | src/buffer/buffer_pool_manager.cpp:272-298 | refused exactly for page 0 and for pinned pages; otherwise only that page goes |
| Buffer.BufferPoolManager.FlushAllPages | src/buffer/buffer_pool_manager.cpp:300-322 | on a working disk the file afterwards holds every allocated page; contents and pins unchanged |
| Buffer.BufferPoolManager.WroteThrough | src/buffer/buffer_pool_manager.cpp:150-174 | writing the bytes of a pinned page and marking it dirty replaces that page in the store and nothing else |
| PoolRuns.LastBytesAreHeld | src/buffer/buffer_pool_manager.cpp:62-322 | after any run the store holds the bytes last written to each page |
| PoolRuns.FetchShowsLastWrite | src/buffer/buffer_pool_manager.cpp:62-322 | over any run of fetches, writes, unpins, flushes, creations, deletions and failures a fetch shows the bytes last written |
| PoolRuns.PoolsAgree | src/buffer/buffer_pool_manager.cpp:62-322 | two pools of any size and eviction order that see the same events fetch the same bytes |
| SlottedFormat.PageNeverFragments | src/storage/slotted_page.cpp:248-291 | every byte between the free pointer and the page end belongs to exactly one record; the free space is what header, directory and records leave |
| SlottedFormat.OkSlots | src/storage/slotted_page.cpp:64-119 | the records of a well-formed page fit in it and do not end in a hole |
| SlottedFormat.InsertKeepsOk | src/storage/slotted_page.cpp:398-454 | storing a record in the first hole or a new slot keeps the page well-formed and every other slot as it was |
| SlottedFormat.InsertedDone | src/storage/slotted_page.cpp:341-454 | the bytes InsertRecord writes do exactly what inserting must do |
| SlottedFormat.RewriteIsOk | src/storage/slotted_page.cpp:121-201 | a rewritten page holds exactly the given slots, packed in slot order |
| SlottedFormat.UpdatedDone | src/storage/slotted_page.cpp:520-582 | the bytes UpdateRecord writes change only its own slot |
| SlottedFormat.DeletedDone | src/storage/slotted_page.cpp:584-638 | the bytes DeleteRecord writes clear only its own slot and drop trailing holes |
| SlottedFormat.LoadedSlots | src/storage/slotted_page.cpp:64-119 | on a well-formed page LoadRecords finds nothing wrong and returns the records |
| SlottedFormat.LinkKeepsOk | src/storage/slotted_page.cpp:315-339 | linking a page leaves its records alone |
| SlottedPages.SlottedPage.Init | src/storage/slotted_page.cpp:205-246 | a formatted page is well-formed, has no slots and no next page |
| SlottedPages.SlottedPage.IsInitialized | src/storage/slotted_page.cpp:248-269 | holds for every well-formed page of this id, and for no page that is all zero or well-formed under another id |
| SlottedPages.SlottedPage.GetFreeSpace | src/storage/slotted_page.cpp:271-291 | on a well-formed page what header, directory and records leave of it; 0 for a page that is not initialized |
| SlottedPages.SlottedPage.GetSlotCount | src/storage/slotted_page.cpp:293-302 | on a well-formed page the number of its slots, the last of which holds a record |
| SlottedPages.SlottedPage.GetNextPageId | src/storage/slotted_page.cpp:304-313 | on a page of a heap file the page that follows it in the chain of the file, or -1 if it is the last |
| SlottedPages.SlottedPage.SetNextPageId | src/storage/slotted_page.cpp:315-339 | changes the link and no record; refuses an uninitialized page and a link to itself or below -1 |
| SlottedPages.SlottedPage.FindSlot | src/storage/slotted_page.cpp:395-410 | the first hole, or one past the last slot |
| SlottedPages.SlottedPage.InsertRecord | src/storage/slotted_page.cpp:341-454 | succeeds exactly when the bytes, plus an entry if there is no hole, fit; stores the record in the first hole or a new slot; a refusal leaves the page unchanged |
| SlottedPages.SlottedPage.ReadRecord | src/storage/slotted_page.cpp:456-518 | the record of a live slot, NOT_FOUND for a hole or a slot that does not exist |
| SlottedPages.SlottedPage.UpdateRecord | src/storage/slotted_page.cpp:520-582 | replaces the record of one live slot if the new total fits; all other slots keep their records; a refusal leaves the page unchanged |
| SlottedPages.SlottedPage.DeleteRecord | src/storage/slotted_page.cpp:584-638 | one live slot becomes a hole, holes at the end are dropped, all other slots keep their records |
| SlottedPages.SlottedPage.LoadRecords | src/storage/slotted_page.cpp:64-119 | reads every slot of a well-formed page |
| SlottedPages.SlottedPage.RewriteRecords | src/storage/slotted_page.cpp:121-201 | the page holds exactly the given slots, packed; refused without a change if they do not fit |
| PageChains.ChainIsUnique | src/storage/heap_file.cpp:429-516 | links and first page determine the page chain |
| PageChains.ChainIsAcyclic | src/storage/heap_file.cpp:52-56 | a chain never visits a page twice, so the cycle errors of the walks cannot be reached |
| HeapStates.HeapFrame | src/storage/heap_file.cpp:11-28 | a heap file whose pages are unchanged is unchanged, whatever happens elsewhere |
| HeapStates.InsertIntoPage | src/storage/heap_file.cpp:30-132 | a record put into a page of the chain is exactly one new row |
| HeapStates.AppendPage | src/storage/heap_file.cpp:134-218 | linking a page with one record to the end adds exactly one row and one page |
| HeapFiles.HeapFile.InsertRecord | src/storage/heap_file.cpp:30-132 | one new row under the record id that the first page with room gives, or no change; on a working disk the status is a function of the pages: it fails exactly for an empty record or one over a page, or if no page of the file has room and a new page would not have it either or the disk is full; every new page belongs to the file; pins restored |
| HeapFiles.HeapFile.AppendNewPage | src/storage/heap_file.cpp:134-218 | the new page is linked last and holds the record, or nothing changes but, on a broken disk, a leaked page |
| HeapFiles.HeapFile.NewRecordPage | src/storage/heap_file.cpp:139-175 | the first half of AppendNewPage: a page with just this record, given back if it cannot be filled |
| HeapFiles.HeapFile.GetRecord | src/storage/heap_file.cpp:220-259 | the bytes stored under the record id, on whatever page of records, NOT_FOUND when there are none |
| HeapFiles.HeapFile.UpdateRecord | src/storage/heap_file.cpp:261-300 | one row has new bytes under the same record id, or nothing changes; on a working disk exactly when the row exists and the new bytes fit its page |
| HeapFiles.HeapFile.DeleteRecord | src/storage/heap_file.cpp:302-330 | one row is gone, all other record ids stay valid, or nothing changes |
| HeapFiles.HeapFile.ContainsPage | src/storage/heap_file.cpp:332-395 | whether the page is in the chain of the file |
| HeapFiles.HeapFile.FindRecordFrom | src/storage/heap_file.cpp:429-516 | the first live record from the given slot on, in chain and slot order |
| HeapFiles.HeapFile.GetFirstRecord | src/storage/heap_file.cpp:397-407 | the first row of the scan order |
| HeapFiles.HeapFile.GetNextRecord | src/storage/heap_file.cpp:409-427 | the row that follows the given one in the scan order |
| HeapScans.ScanListsEachRowOnce | src/storage/heap_file.cpp:397-516 | the scan order lists every row of the file and none twice |
| HeapScans.ScanResumes | src/storage/heap_file.cpp:409-427 | resuming after any row of the scan yields exactly the rows after it |
| HeapScans.ScanFrame | src/query/executor.cpp:543-585 | changes of pages of other owners do not disturb a scan |
| BucketPages.HashIndexBucketPage.Init | src/index/bucket_page.cpp:22-41 | an empty bucket without overflow page |
| BucketPages.HashIndexBucketPage.ReadEntry | src/index/bucket_page.cpp:125-169 | on a well-formed page the pair of every entry there is; the error codes for any other page or entry |
| BucketPages.HashIndexBucketPage.WriteEntry | src/index/bucket_page.cpp:171-221 | changes that entry and nothing else |
| BucketPages.HashIndexBucketPage.SetOverflowPageId | src/index/bucket_page.cpp:81-103 | changes the link and no entry |
| BucketPages.HashIndexBucketPage.Insert | src/index/bucket_page.cpp:237-300 | appends the pair unless it is there already; refused without a change when the page is full (OUT_OF_MEMORY), the key is over 64 bytes or the record id is on no page (INVALID_ARGUMENT), or the page is damaged (IO_ERROR) |
| BucketPages.HashIndexBucketPage.GetValue | src/index/bucket_page.cpp:302-345 | appends the record ids of the key in entry order; INVALID_ARGUMENT for a key over 64 bytes, IO_ERROR for a damaged page, and nothing appended then |
| BucketPages.HashIndexBucketPage.Remove | src/index/bucket_page.cpp:347-431 | leaves exactly the entries that do not match, although the last entries move, and counts what it removed; a key over 64 bytes or a damaged page is refused without a change |
| IndexStates.RemovedMembers | src/index/bucket_page.cpp:347-431 | removal by moving the last entry takes away the matching pairs and nothing else |
| IndexHeaders.HashIndexHeaderPage.Init | src/index/hash_index_header_page.cpp:22-66 | a directory with no pages for any bucket |
| IndexHeaders.HashIndexHeaderPage.GetBucketPageId | src/index/hash_index_header_page.cpp:108-140 | the directory entry, with errors for a bad header or bucket |
| IndexHeaders.HashIndexHeaderPage.SetBucketPageId | src/index/hash_index_header_page.cpp:142-178 | changes one directory entry and nothing else |
| IndexStates.ChainsAreUnique | src/index/hash_index.cpp:230-383 | header page and links determine the bucket chains |
| IndexStates.InsertIntoBucket | src/index/hash_index.cpp:500-528 | a pair added to a page of its bucket keeps chains, hashing and the absence of duplicates |
| IndexStates.RemoveFromBucket | src/index/hash_index.cpp:628-711 | so does removing pairs |
| IndexStates.AppendOverflow | src/index/hash_index.cpp:309-383 | so does a new overflow page |
| IndexStates.StartBucket | src/index/hash_index.cpp:230-307 | so does the first page of a bucket |
| IndexStates.IndexFrame | src/index/hash_index.cpp:230-383 | an index whose pages are unchanged is unchanged, whatever happens elsewhere |
| IndexOutcomes.OnlyInBucket | src/index/hash_index.cpp:385-541 | only the pages of its own bucket can hold a pair |
| IndexOutcomes.NothingLeft | src/index/hash_index.cpp:628-711 | once every page of the bucket has been searched no matching pair is left in the index |
| HashIndexes.HashIndex.Create | src/index/hash_index.cpp:31-86 | a header page of its own with no pairs, or no change; on a working disk it fails exactly for a bad bucket count or a full disk |
| HashIndexes.HashIndex.ValidateHeader | src/index/hash_index.cpp:135-163 | accepts exactly the headers that this version can use |
| HashIndexes.HashIndex.GetBucketPageId | src/index/hash_index.cpp:176-228 | the bucket of a key and its first page; INVALID_ARGUMENT for a long key; a header page that cannot be used never gives one, and on a working disk one that can is never refused |
| HashIndexes.HashIndex.CreatePrimaryBucket | src/index/hash_index.cpp:230-307 | a first page with the pair, entered in the directory, or no change |
| HashIndexes.HashIndex.AppendOverflowBucket | src/index/hash_index.cpp:309-383 | a page with the pair linked after the last one, or no change |
| HashIndexes.HashIndex.Insert | src/index/hash_index.cpp:385-541 | the set of pairs gains exactly this pair (none if it was there, even on a later page than the free slot) or is unchanged; on a working disk it fails exactly for a pair that cannot be indexed, or if the pair is new, its bucket is full and so is the disk, and takes a page exactly if the bucket is full |
| HashIndexes.HashIndex.GetValue | src/index/hash_index.cpp:543-615 | exactly the record ids of the key, each once |
| HashIndexes.HashIndex.RemoveInternal | src/index/hash_index.cpp:628-711 | removes exactly the pair, or all pairs of the key; NOT_FOUND exactly when there is none; afterwards the bucket has room |
| HashIndexes.HashIndex.Remove | src/index/hash_index.cpp:621-626 | removes exactly that pair |
| HashIndexes.HashIndex.RemoveKey | src/index/hash_index.cpp:617-619 | removes every pair of the key and no other |
| HashIndexes.HashIndex.DestroyChain | src/index/hash_index.cpp:767-811 | gives back exactly the pages of one bucket |
| HashIndexes.HashIndex.Destroy | src/index/hash_index.cpp:713-821 | gives back exactly the pages of the index; other pages stay as they are even if it fails half way |
| RecordFormat.RoundTrip | src/storage/record_codec.cpp:43-294 | decoding a serialized row gives back the row, with NULLs and empty strings, for every schema and row within the 16-bit bounds |
| RecordCodecs.Serialize | src/storage/record_codec.cpp:43-182 | succeeds exactly for rows of the right types and sizes and then writes a record of them |
| RecordCodecs.Deserialize | src/storage/record_codec.cpp:184-294 | on any bytes at all: the row if they are a record of the schema, IO_ERROR otherwise, without reading outside |
| RecordCodecs.GetValue | src/storage/record_codec.cpp:296-324 | the value of one column |
| RecordCodecs.Project | src/storage/record_codec.cpp:326-376 | a record that decodes to exactly the chosen columns; it succeeds exactly if the record can be read, the columns exist and their values fit a record |
| IndexKeys.Encode | src/index/index_key.cpp:10-69 | succeeds exactly if the value has a key, and gives it |
| IndexKeys.WhichValuesHaveKeys | src/index/index_key.cpp:10-69 | every value has a key but NULL and texts of more than 63 bytes |
| IndexKeys.KeysAreInjective | src/index/index_key.cpp:10-69 | different values have different keys |
| TableStates.HeapLifts | src/storage/table_storage.cpp:320-426 | a change of the heap file leaves every index of the table alone |
| TableStates.IndexLifts | src/storage/table_storage.cpp:320-426 | a change of one index leaves the rows and the other indexes alone |
| TableStates.PairsOfNewRow | src/storage/table_storage.cpp:320-426 | the pairs of the rows after one more row |
| TableStates.PairsOfLostRow | src/storage/table_storage.cpp:670-767 | the pairs of the rows after one row less |
| TableStates.PairsOfChangedRow | src/storage/table_storage.cpp:466-668 | the pairs of the rows after one row has changed |
| TableOutcomes.InsertedAll | src/storage/table_storage.cpp:381-425 | with a pair in every index, rows and indexes agree |
| TableOutcomes.InsertUndone | src/storage/table_storage.cpp:390-417 | with every pair and the row taken back, everything is as before |
| TableOutcomes.DeletedOneLess | src/storage/table_storage.cpp:294-318 | the slot that the removal has freed takes the old pair back |
| TableOutcomes.ChangeUndone | src/storage/table_storage.cpp:613-645 | undoing the change of one index puts its old pair back |
| TableOutcomes.ChangedAll | src/storage/table_storage.cpp:466-668 | with every key changed, rows and indexes agree |
| TableOutcomes.OldRecordFits | src/storage/table_storage.cpp:647-649 | a record that has been replaced always fits back into its slot |
| TableOutcomes.UndoFits | src/storage/table_storage.cpp:647-649 | so putting the old record back cannot fail for lack of room |
| TableStorages.TableStorage.ValidateRecordBelongsToTable | src/storage/table_storage.cpp:182-212 | accepts exactly record ids on pages of the table |
| TableStorages.TableStorage.EncodeIndexKeys | src/storage/table_storage.cpp:214-264 | the key of every index, none for NULL; refused exactly when one cannot be encoded |
| TableStorages.TableStorage.RollbackInsertedIndexEntries | src/storage/table_storage.cpp:266-292 | takes the inserted pairs back; cannot fail on a working disk |
| TableStorages.TableStorage.RollbackRemovedIndexEntries | src/storage/table_storage.cpp:294-318 | puts the removed pairs back, last one first; cannot fail on a working disk |
| TableStorages.TableStorage.InsertIndexEntries | src/storage/table_storage.cpp:381-425 | the pairs of a new row go into the indexes one after the other; on a working disk it stops exactly if the disk lacks a page for a bucket that has no room, and the table has grown by just the pages that the keys needed |
| TableStorages.TableStorage.InsertRecord | src/storage/table_storage.cpp:320-426 | one new row with its pair in every index, or rows and all indexes exactly as before, also when a page cannot be allocated at any point; on a working disk the status is a function of values, table and disk size: values that can be a row are stored exactly if a page of the file or an empty page has room for the record and the disk has the pages that file and buckets need |
| TableStorages.TableStorage.GetRecord | src/storage/table_storage.cpp:428-464 | the row, if it is one of the table |
| TableStorages.TableStorage.UpdateRecord | src/storage/table_storage.cpp:466-668 | the row has the new values and every index its new pair, or rows and all indexes exactly as before; on a working disk a record id that is no row of the table is refused without a change, and otherwise the status is a function of values, table and disk size: values that can be a row are stored exactly if they fit in place of the old record and the disk has a page for each changed key whose bucket has no room, the slot of the old key counted |
| TableStorages.TableStorage.ChangeKey | src/storage/table_storage.cpp:561-604 | old pair out, new pair in; if that fails the old pair is back; on a working disk it fails exactly if the new key goes to another bucket than the old one, which is full, and so is the disk |
| TableStorages.TableStorage.ApplyChanges | src/storage/table_storage.cpp:577-611 | changes the keys of a row index by index; on a working disk it stops exactly if the disk lacks a page that a changed key needs |
| TableStorages.TableStorage.RollbackChanges | src/storage/table_storage.cpp:611-645 | undoes the changes to the indexes in reverse; cannot fail on a working disk |
| TableStorages.TableStorage.DeleteRecord | src/storage/table_storage.cpp:670-767 | the row is gone from the table and from every index, or rows and all indexes exactly as before; on a working disk it succeeds exactly for the rows of the table |
| TableRooms.PagesAfterRemoval | src/storage/table_storage.cpp:577-604 | once the old pair has gone, the new key needs a page exactly if it goes to another bucket that had no room before |
| TableRooms.RowPairPlaced | src/storage/table_storage.cpp:381-425 | the pair of a new row takes a page exactly if its bucket has no room, or the disk is full |
| TableRooms.UpdatePagesAreFew | src/storage/table_storage.cpp:577-604 | an update needs at most a page for every index, and none if no key changes |
| TableRooms.EmptyPageTakesRow | src/storage/table_storage.cpp:369-379 | a table without indexes and with an empty page takes every row whose record has at most 4076 bytes |
| TableLoads.LoadTable | src/storage/table_storage.cpp:98-180 | finds schema, first page and indexes of a table by its name |
| TableLoads.IndexOrderDoesNotMatter | src/catalog/catalog_manager.cpp:1056-1063 | in which order the indexes of a table are listed does not matter to anything that is proved |
| TableLoads.LoadedTableIsOk | src/storage/table_storage.cpp:98-180 | a table that is loaded by name from an engine in order is in order |
| TableLoads.LoadedStatementKeepsEngine | src/storage/table_storage.cpp:98-180 | a statement on such a table keeps the whole engine in order and the rows of the other tables |
| TableLoads.EveryIndexIsReadable | src/query/executor.cpp:848-865 | in an engine in order every index of the catalog leads to rows of its own table only |
| Operators.SeqScanOperator.Open | src/query/operators/seq_scan_operator.cpp:12-26 | the scan stands before the first row |
| Operators.SeqScanOperator.Next | src/query/operators/seq_scan_operator.cpp:28-72 | the next row of the scan order; ends exactly after the last one |
| Operators.IndexScanOperator.Open | src/query/operators/index_scan_operator.cpp:16-33 | looks up exactly the record ids of the key |
| Operators.IndexScanOperator.Next | src/query/operators/index_scan_operator.cpp:35-79 | the next looked-up row; on a working disk none is skipped |
| Operators.FilterPlan.Evaluate | src/query/operators/filter_operator.cpp:91-128 | whether the record satisfies the condition; NULL satisfies none |
| Operators.FilterPlan.Open | src/query/operators/filter_operator.cpp:48-80 | checks the columns and opens the source |
| Operators.FilterPlan.Next | src/query/operators/filter_operator.cpp:130-146 | the next row of the source that passes every filter; on a working disk none is lost, and only a record that cannot be read stops it |
| Operators.ProjectionOperator.Open | src/query/operators/projection_operator.cpp:16-43 | refuses an empty list and columns that do not exist; on a working disk succeeds exactly if list and conditions are on existing columns |
| Operators.ProjectionOperator.Next | src/query/operators/projection_operator.cpp:45-71 | the chosen columns of the next row of the child, none lost; stops only at a row whose columns cannot be cut out |
| Operators.ProjectionOperator.Close | src/query/operators/projection_operator.cpp:73-79 | the first failure of the projection or of what is below it |
| Comparisons.ExactlyOneHolds | src/query/operators/filter_operator.cpp:11-37 | of two integers and of two texts exactly one of <, = and > holds; >= is > or =, and <= is < or = |
| Comparisons.IntegersAscend | src/query/operators/filter_operator.cpp:11-22 | the successor of a number is above it, and so is whatever is larger than an integer above it; > and < are converse |
| Comparisons.TextsByFirstDifference | src/query/operators/filter_operator.cpp:24-37 | the first byte that differs decides, and a proper prefix comes first |
| Comparisons.OtherwiseOnlyEqual | src/query/operators/filter_operator.cpp:91-128 | truth values can only be equal; NULL, or a value of another type, satisfies nothing |
| Comparisons.AllHoldIs | src/query/operators/filter_operator.cpp:82-146 | a record satisfies WHERE exactly if every condition holds, in the order of integers or of texts, for the value of the first column of that name |
| Comparisons.ConditionsAreJoined | src/query/operators/filter_operator.cpp:82-146 | WHERE is a conjunction |
| Queries.EqualityMeansKey | src/query/operators/filter_operator.cpp:91-128 | a row satisfies an equality exactly if its column has the key of the target |
| Queries.LookupFindsEquals | src/query/executor.cpp:796-892 | an index lookup returns exactly the rows that satisfy the indexed equality |
| Queries.PlansAgree | src/query/executor.cpp:796-892 | filtering the looked-up rows and filtering the scan select the same multiset of rows |
| Selections.PlanSelects | src/query/executor.cpp:796-892 | through an index of the table, filtering what a lookup finds selects a permutation of the rows that satisfy WHERE |
| Selections.ChosenMembers | src/query/executor.cpp:759-937 | the selected rows are exactly those that satisfy WHERE, each once |
| Planners.OwnPlanExactly | src/catalog/catalog_manager.cpp:956-1000 | the planner never uses the index of another table, whatever the conditions, exactly if every entry whose key starts with the table name and a dot is one of the table |
| Planners.SharedKeys | src/catalog/catalog_manager.cpp:119-124 | two tables can share a key exactly if they are the same or one name continues the other after a dot |
| Planners.ApartMeansOwn | src/catalog/catalog_manager.cpp:956-1000 | if no table name continues another one after a dot, every table has its own entries |
| Planners.OwnIndex | src/query/executor.cpp:806-855 | an entry of the table itself is an index of the table on the column of the condition |
| Selections.OwnOrder | src/query/executor.cpp:796-892 | unless the planner uses the index of another table, the plan selects exactly the rows that satisfy WHERE, each once, and can read them |
| Selections.ForeignOrder | src/query/executor.cpp:796-892 | through the index of another table the plan comes upon no row of its own |
| StatementOutcomes.StatusOfPlan | src/query/executor.cpp:796-841 | a plan is refused, when it is built or opened, exactly if the conditions cannot be answered |
| StatementOutcomes.ShortUpdateSucceeds | src/query/executor.cpp:599-701 | an UPDATE succeeds if no record becomes longer, and if its column has no index or the disk has a page to spare for every row and index |
| StatementOutcomes.PathGrowth | src/query/executor.cpp:657-701 | while the rows of an UPDATE are changed one after the other the table stays in order and grows by at most a page for every row and index |
| StatementOutcomes.OneRowUpdate | src/query/executor.cpp:657-701 | an UPDATE of a single row succeeds exactly if its new values can be a record, fit in its page, and the disk has the pages that its keys need |
| Executors.QueryExecutor.BuildPlan | src/query/executor.cpp:759-892 | the first equality for whose column the catalog has an index, under the key of table and column name, becomes a lookup of the key of its target in that index; NOT_FOUND exactly if that column does not exist, INVALID_ARGUMENT exactly if that key does not; a scan if there is no such equality |
| Executors.QueryExecutor.OpenPlan | src/query/executor.cpp:599-629 | an opened plan goes through the scan order, or through what the index has under the key; on a working disk it is refused exactly if the conditions cannot be answered |
| Executors.QueryExecutor.Collect | src/query/executor.cpp:721-737 | on a working disk collects exactly the record ids of the plan whose records satisfy WHERE, in order, and fails only at a record that cannot be read; changes nothing |
| Executors.QueryExecutor.ExecuteUpdate | src/query/executor.cpp:599-701 | on a working disk, through an index of the table or a scan: exactly the rows that satisfied WHERE at the start have the new value, each changed once, and are counted; or those before the first row whose new values cannot be a record (INVALID_ARGUMENT), or for which, in the state that the rows before it have led to, its page or the disk has no room (OUT_OF_MEMORY), exactly; the exact status if conditions or column are wrong; nothing happens through the index of another table |
| Executors.QueryExecutor.ExecuteDelete | src/query/executor.cpp:703-757 | on a working disk, through an index of the table or a scan: exactly the rows that satisfied WHERE at the start are gone and are counted, and it succeeds exactly if the conditions can be answered; nothing is deleted through the index of another table; on any disk heap and indexes stay in order, and agree after success |
| Executors.QueryExecutor.ExecuteSelect | src/query/executor.cpp:121-182 | on a working disk, through an index of the table or a scan: exactly the rows that satisfy WHERE, each once, all columns or the listed ones; it succeeds exactly if the conditions can be answered, the listed columns exist and can be cut out of every such row; through the index of another table it shows no row of its own |
| CatalogFormat.CatalogReadsBack | src/catalog/catalog_manager.cpp:126-741 | parsing a catalog page gives back the tables and indexes that were written to it, in order |
| CatalogRefusals.ReadsBackExactlyIfNamed | src/catalog/catalog_manager.cpp:187-395 | what has been written reads back exactly if every column has a name; otherwise the page is refused |
| CatalogRefusals.NamelessExample | src/catalog/catalog_manager.cpp:751-804 | one table with one nameless column fits on page 0 and cannot be read back |
| Catalogs.SameKeyExactly | src/catalog/catalog_manager.cpp:119-124 | two columns have the same key exactly if they are the same, or one table name continues the other after a dot and the column names make up for it |
| Catalogs.DottedNamesCollide | src/catalog/catalog_manager.cpp:119-124 | with a dot in a table name two columns share a key |
| Catalogs.ListedSize | src/catalog/catalog_manager.cpp:483-672 | the space that a catalog needs does not depend on the order of its entries |
| Catalogs.SerializeCatalog | src/catalog/catalog_manager.cpp:471-713 | the page of a catalog; refused exactly when it does not fit |
| Catalogs.WriteTable | src/catalog/catalog_manager.cpp:493-584 | appends one table entry, refused exactly when it does not fit |
| Catalogs.WriteIndex | src/catalog/catalog_manager.cpp:593-666 | appends one index entry, refused exactly when it does not fit |
| Catalogs.StoredCatalogReadsBack | src/catalog/catalog_manager.cpp:126-741 | whatever the order of the entries, reading page 0 lists exactly the stored tables and indexes |
| CatalogManagers.ReadCatalog | src/catalog/catalog_manager.cpp:144-395 | the loops of Load parse a page as the format says, for all bytes |
| CatalogManagers.ParsedCatalogFits | src/catalog/catalog_manager.cpp:187-395 | whatever bytes are accepted, the entries can be stored again |
| CatalogManagers.LoadedIsWellFormed | src/catalog/catalog_manager.cpp:126-469 | whatever page 0 holds, a catalog that loads is well formed |
| CatalogManagers.LoadRestoresStored | src/catalog/catalog_manager.cpp:126-741 | Load after Persist restores the same tables, schemas, indexes and index names |
| CatalogManagers.NamelessIsNotLoaded | src/catalog/catalog_manager.cpp:126-469 | a stored catalog with a nameless column cannot be loaded, whatever else it has |
| CatalogManagers.CatalogManager.Load | src/catalog/catalog_manager.cpp:126-469 | succeeds, on a working disk, exactly when page 0 describes a catalog whose indexes can be opened, and then holds that catalog |
| CatalogManagers.CatalogManager.EnterIndexes | src/catalog/catalog_manager.cpp:404-465 | enters the indexes one by one: table, column, header page, no duplicate |
| CatalogManagers.CatalogManager.Persist | src/catalog/catalog_manager.cpp:471-741 | page 0 holds the catalog and is in the file; a catalog that does not fit is refused with page 0 unchanged |
| CatalogManagers.CatalogManager.CreateTable | src/catalog/catalog_manager.cpp:751-804 | the entry is in the catalog and on page 0, or the catalog is as before; on a working disk it fails exactly for a bad entry or a full page; a column without a name is accepted, and then the catalog cannot be loaded again |
| CatalogManagers.CatalogManager.CreateIndex | src/catalog/catalog_manager.cpp:858-954 | the entry is in the catalog and on page 0; an index that is accepted but cannot be stored is destroyed; an index that is refused stays |
| IndexCounts.BucketSize | src/index/bucket_page.cpp:237-300 | a bucket holds at most 53 pairs on each of its pages, and has room exactly if it holds fewer |
| IndexCounts.RoomWhenTight | src/index/hash_index.cpp:385-541 | in an index without a page too many a bucket has room exactly if the number of its pairs is no multiple of 53 |
| IndexCounts.InsertWhenTight | src/index/hash_index.cpp:385-541 | a new pair takes a page exactly if it is one more than the pages of its bucket hold, so that an index filled pair by pair has for each bucket just the pages that its pairs need |
| IndexBuilds.CountedStep | src/query/executor.cpp:553-580 | while an index is filled the store has grown by its header page and just the bucket pages that the pairs need, or the disk cannot hold them |
| IndexBuilds.RowsNeed | src/query/executor.cpp:553-580 | which are at most one for every row |
| IndexBuilds.IndexBuilt | src/query/executor.cpp:543-597 | once the index has the pair of every row whose column is not NULL it is an index of the table |
| IndexBuilds.BuildingUndone | src/query/executor.cpp:65-84 | without the pages of the unfinished index everything is as before |
| IndexBuilds.TableMeanwhile | src/query/executor.cpp:553-580 | while an index is being built rows and scan order stay the same |
| DataDefinition.DefinitionExecutor.IndexNextRow | src/query/executor.cpp:553-580 | one round of the loop: the next row of the scan, its key, its pair |
| DataDefinition.DefinitionExecutor.FillIndex | src/query/executor.cpp:543-585 | scanning and inserting in turn builds exactly the pairs of the rows whose column is not NULL |
| DataDefinition.DefinitionExecutor.BuildIndex | src/query/executor.cpp:525-589 | a complete index in the pool and, on a working disk, in the file, or nothing changes; there, if every value of the column has a key, it succeeds exactly if the disk has the header page and the bucket pages that the keys of the rows need |
| ColumnDefinitions.ColumnOfIs | src/query/executor.cpp:384-418 | the type names are INT, INTEGER, CHAR, VARCHAR, BOOLEAN and BOOL, compared letter by letter without regard to case, and no other; each gives a column of its kind and length, texts the declared length, or 30 for 0 |
| ColumnDefinitions.DefinesOnce | src/query/executor.cpp:384-418 | the definitions stand for one list of columns only |
| ColumnDefinitions.BuildColumns | src/query/executor.cpp:371-418 | accepts exactly lists of columns with non-empty unique names and known types, and column k has the name, kind and length that definition k declares |
| ColumnDefinitions.RowAccepted | src/query/executor.cpp:384-418 | which rows fit the columns: integers for INTEGER, truth values for BOOLEAN, texts up to the length for VARCHAR, and NULL for all of them |
| DataDefinition.DefinitionExecutor.NewTablePage | src/query/executor.cpp:422-456 | a formatted page in pool and file, or, on a working disk, nothing changes, and that exactly if the disk is full |
| DataDefinition.TableMadeKeepsEngine | src/query/executor.cpp:349-474 | a formatted page and then the entry on page 0 make an empty table, keep the engine in order and change no rows of other tables |
| DataDefinition.IndexMadeKeepsEngine | src/query/executor.cpp:476-597 | a complete index and then the entry on page 0 keep the engine in order and change no rows |
| DataDefinition.DefinitionExecutor.ExecuteCreateTable | src/query/executor.cpp:349-474 | an empty table of its own page, with the columns that are declared, in the catalog and on page 0, with the engine in order; on a working disk a failure changes nothing, and a statement whose names and types are in order fails exactly if the disk is full or the entry does not fit on page 0 |
| DataDefinition.DefinitionExecutor.ExecuteCreateIndex | src/query/executor.cpp:476-597 | an index that agrees with the rows, in the catalog and on page 0, with the engine in order; on a working disk a failure changes nothing if the index name is not empty; with an empty name it always fails, and leaves a complete index behind, whose pages just no table owns, exactly if the index can be built and the status is INVALID_ARGUMENT; on a working disk the status follows the checks in turn, and an index whose column has keys is made exactly if the disk has the pages for it and page 0 room for the entry |
| IndexLeaks.LostIsDetermined | src/query/executor.cpp:88-347 | which pages belong to no table follows from the pages and the catalog alone |
| IndexLeaks.LeakIsLost | src/query/executor.cpp:591-596 | once the catalog has refused a complete index, page 0 and all rows are as before, and just the pages of that index have been added to the lost ones, whichever tables one assumes |
| LeakExamples.EmptyNameLosesAPage | src/catalog/catalog_manager.cpp:868-876 | one empty table and CREATE INDEX with an empty name: the statement fails and page 2 belongs to no table |
| Databases.TableFrame | src/query/executor.cpp:88-347 | a table whose pages are unchanged is unchanged |
| Databases.StatementKeepsDb | src/query/executor.cpp:599-757 | a statement on one table leaves the others alone; the allocated pages stay the disjoint union of page 0, the pages of the tables and the lost pages |
| Databases.CatalogPageKeepsDb | src/catalog/catalog_manager.cpp:715-738 | writing page 0 changes no table |
| Engines.FreshEngine | src/storage/disk_manager.cpp:75-85 | a new file is an engine without tables |
| Engines.StatementKeepsEngine | src/query/executor.cpp:599-757 | INSERT, UPDATE and DELETE keep catalog, ownership and agreement |
| Engines.TableAddedKeepsEngine | src/query/executor.cpp:349-474 | so does CREATE TABLE |
| Engines.IndexAddedKeepsEngine | src/query/executor.cpp:476-597 | so does CREATE INDEX |
| Engines.RestartRestores | src/catalog/catalog_manager.cpp:126-469 | from an engine in order the catalog can be loaded again as it was |
| Restarts.ReopenIsExact | src/storage/disk_manager.cpp:87-120 | opening a file finds exactly the pages that were free if and only if no allocated page, apart from page 0, is all zero |
| Restarts.EngineHasNoZeroPage | docs/file_format.md:152-163 | in an engine in order no page but page 0 can be taken for a free one |
| Restarts.CleanRestart | src/buffer/buffer_pool_manager.cpp:57-60 | after a flush, opening the file again gives back every page and the catalog |
| Restarts.ShutDown | src/buffer/buffer_pool_manager.cpp:57-60 | changes no contents; on a working disk the file holds every allocated page and its free pages are zero |
| Restarts.Start | src/main.cpp:128-145 | starting on such a file, with a pool of any size, gives the same pages; the catalog loads as it was, on a working disk always |
| EngineRuns.StepKeepsOrder | src/query/executor.cpp:88-347 | every kind of statement, as its outcome is stated, keeps the engine in order, all tables, and the rows of every table but its own |
| EngineRuns.StepLosesNothing | src/query/executor.cpp:88-347 | no statement but CREATE INDEX with an empty name loses a page |
| EngineRuns.StepKeepsRows | src/query/executor.cpp:88-347 | a row changes or goes only by UPDATE or DELETE on its table |
| EngineRuns.RunKeepsOrder | src/query/executor.cpp:88-347 | every state that any run of statements reaches is in order |
| EngineRuns.RunLosesNothing | src/query/executor.cpp:88-347 | unless an index is created with an empty name, a run loses no page |
| EngineRuns.RunLeavesOthers | src/query/executor.cpp:88-347 | a table keeps its rows over any run without INSERT, UPDATE or DELETE on it |
| EngineRuns.RowsSurvive | src/query/executor.cpp:88-347 | a row keeps its record id and its bytes over any run without UPDATE or DELETE on its table |
| EngineRuns.EveryRunCanRestart | src/main.cpp:128-145 | from an empty file on, after any statements, closing and starting again gives back the catalog and every page |
| NameRuns.StepKeepsNamesApart | src/query/executor.cpp:349-474 | table names stay apart exactly unless CREATE TABLE adds one that continues another after a dot |
| NameRuns.RunPlansAreOwn | src/query/executor.cpp:796-892 | over any run that creates no table with a dot in its name, the planner uses no index but those of the table |
| NameRuns.RunReadsOwnRows | src/query/executor.cpp:88-347 | over any such run from a new file, every SELECT shows exactly the rows for which WHERE holds, each once, with the value of the first column of each listed name; every DELETE removes exactly those rows, and every UPDATE that succeeds changes exactly those, and counts them |
| NameRuns.ForeignPlanMisses | src/query/executor.cpp:599-892 | through the index of another table UPDATE and DELETE change nothing and fail if they come upon any record, and SELECT shows none of the rows of its table |
| NameExamples.DottedNamesHideARow | src/query/executor.cpp:806-855 | with tables "a.b" and "a": a row (5) that INSERT has stored satisfies "b.c" = 5, and SELECT answers OK without it |
| Guarantees.InsertableMeans | src/storage/table_storage.cpp:320-379 | which values can be a row of a table: they fit the columns, the record has at most 4096 bytes, and no text in an indexed column more than 63 |
| Guarantees.InsertRefusedForRoom | src/storage/table_storage.cpp:320-426 | a row that can be stored is refused only if no page of the file or some bucket of its keys has no room, and the disk not a page for the file and each index |
| Guarantees.UpdateRefusedForRoom | src/storage/table_storage.cpp:466-668 | an update that fits in its page is refused only if some key changes to one whose bucket is another one and full, and the disk has not a page for each index |
| Guarantees.NewTableTakesRow | src/query/executor.cpp:254-474 | CREATE TABLE and then INSERT: the row is stored if its values are what the definitions accept and it fits a page, and refused as an invalid argument if they are not |
| Guarantees.WhichColumnsAreKeyed | src/query/executor.cpp:553-580 | every INTEGER and every BOOLEAN column can have an index, and a VARCHAR column exactly if no row has a text of more than 63 bytes there |
| Guarantees.IndexCanBeMade | src/query/executor.cpp:476-597 | CREATE INDEX with a new name on a column without an index is refused as an invalid argument only for a text of more than 63 bytes, so never on an INTEGER or BOOLEAN column; otherwise it succeeds exactly if the disk has the pages that it needs, at most one for every row and one more, and page 0 room for the entry |
| FormatExamples.HashStep | src/index/hash_index.cpp:121-133 | what one more byte does to the hash of a key |
| FormatExamples.PublishedHashes | src/index/hash_index.cpp:121-133 | the hash has the published FNV-1a values |
| FormatExamples.KeysByNumbers | src/index/index_key.cpp:10-69 | the bytes of the keys of some values |
| FormatExamples.RecordByNumbers | src/storage/record_codec.cpp:43-182 | the bytes of the record of a row with a NULL |
| Sessions.Session.Find | src/query/executor.cpp:759-789 | the table of a statement by its name, in order and with every index readable; not found exactly if the catalog has none |
| Sessions.Session.ExecuteSelect | src/query/executor.cpp:121-182 | on a working disk the step of SELECT, which changes nothing |
| Sessions.Session.ExecuteInsert | src/query/executor.cpp:254-321 | on a working disk a step that adds one row of the values, or none, with the exact status; a wrong number of values is refused |
| Sessions.Session.ExecuteUpdate | src/query/executor.cpp:216-233 | on a working disk the step of UPDATE on the table of that name |
| Sessions.Session.ExecuteDelete | src/query/executor.cpp:235-252 | on a working disk the step of DELETE on the table of that name |
| Sessions.Session.ExecuteCreateTable | src/query/executor.cpp:184-198 | on a working disk the step of CREATE TABLE |
| Sessions.Session.ExecuteCreateIndex | src/query/executor.cpp:200-214 | on a working disk the step of CREATE INDEX; only an empty name adds to the lost pages |
| Sessions.Session.Execute | src/query/executor.cpp:88-347 | on a working disk what a statement does is a step of the engine, which stays in order, so that the next statement can follow; nothing happens if the catalog has not been loaded |
| Sessions.Session.Serve | src/main.cpp:147-214 | any sequence of statements, whatever their outcomes, is a run |
| Sessions.NewFileIsLeft | src/storage/disk_manager.cpp:75-85 | an empty file is as good as one that an engine without tables has left |
| Sessions.RunProgram | src/main.cpp:128-214 | on a working disk the program goes on with the engine that the file was left by, carries out a run, and leaves the file of its last state |

## Left out

- Tokenizer, parser, literal conversion and console: statements arrive parsed, with columns by name; the targets of conditions and the new value of an UPDATE are values of the type of their column.
- File streams, flushing and errors on opening a file: the file is a sequence of pages with nondeterministic success.
- Mutexes, page latches and the branches for a page that was initialized concurrently: runs are sequential.
- Crash recovery: there is no log; a restart is proved for a file that has been flushed.
- Statement-level atomicity of multi-row UPDATE and DELETE: the executor keeps the changes made before an error, and the contracts say which they are.
- Null-pointer checks, message texts, counters, timing, column headings of results and EXPLAIN: only status codes are kept.
- Formatting of heap and bucket pages that are found uninitialized (src/storage/heap_file.cpp:68-84): such pages do not occur in a well-formed file.
- CatalogManager::Flush and the getters of the catalog: they only call Persist or read the maps.
- Record objects: a record is its bytes and its record id.
- A disk that fails, beyond single methods: there a statement is promised to restore the pins and what its own contract says; the run theorems are about a working disk.
- Disk.DiskManager.AllocatePage: a full disk is a bound on the number of pages, at most 2^31, where the source sees a write fail; page ids stay below 2^31, so the overflow check of the page counter is not reached.
- Buffer.BufferPoolManager.FetchPage: requires that the page is not free; the source would load a free page, and a later NewPage of the same id would give it a second frame; it leaves this to its callers.
- Buffer.BufferPoolManager.LoadPage: requires that the page is not free, as FetchPage does.
- HeapFiles.HeapFile.InsertRecord: the branch that formats an uninitialized page is not reached in a well-formed file.
- HeapFiles.HeapFile.GetRecord: requires that the page of the record id holds records; the source would also read a free page or one of an index.
- HeapFiles.HeapFile.UpdateRecord: requires that the page of the record id holds records, as GetRecord does; it need not be a page of this file.
- HeapFiles.HeapFile.DeleteRecord: requires that the page of the record id holds records, as GetRecord does.
- HeapFiles.HeapFile.GetNextRecord: requires a record id on a page of some heap file, which every scan has.
- HeapFiles.HeapFile.FindRecordFrom: requires a starting page of some heap file, which both of its callers have.
- HashIndexes.HashIndex.Destroy: the handle forgets its header page id in the source; the model's handles are rebuilt from the id, so the reset is not modelled.
- HashIndexes.HashIndex.ValidateHeader: requires that the header page is not free, as FetchPage does; HashIndex::Open and the handle's lifetime are this check and a constructor.
- HashIndexes.HashIndex.GetBucketPageId: requires that the header page is not free, as FetchPage does.
- CatalogManagers.CatalogManager.EnterIndexes: requires that the header pages are not free, as FetchPage does.
- CatalogManagers.CatalogManager.Persist: entries are written in any order where the source sorts them by name, the page is marked dirty together with the copy where the source does so at the unpin that follows, and the checks that lengths fit 16 bits are subsumed by the size of the page.
- CatalogManagers.CatalogManager.Load: requires that the header pages named on page 0 are not free, as FetchPage does; which tables have been entered when loading fails is not specified, since a catalog that has failed to load is not used.
- TableLoads.LoadTable: lists the indexes in any order where the source sorts them by name; IndexOrderDoesNotMatter shows that nothing depends on it.
- DataDefinition.DefinitionExecutor.ExecuteCreateIndex: if some value of the column has no key and the disk has not the pages for the other rows, it depends on the order of the scan which of the two is found first; both statuses are allowed then.
- Operators.FilterPlan.Next: one object stands for a scan and the stack of FilterOperators above it, which pass a row in the same order.
- Operators.IndexScanOperator.Next: rows that cannot be read are skipped as in the source; that none is lost is claimed for a working disk only.
- Executors.QueryExecutor.ExecuteUpdate: the new values are computed after all rows have been collected, not one by one; nothing is changed before either.
- The methods that are halves of a source function (LoadPage, WriteBack, Seat, NewRecordPage, FillNewPage, NewBucketPage, EnterIndex, EnterTable and the like) exist to keep proofs small; each names what it is part of.
