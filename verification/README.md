# Proofs for the engines inside kfkclient

The client bundles several algorithmic engines.  This project models them in Dafny and
proves what they are relied on for.  `dafny verify dfyconfig.toml` checks everything.

**LMDB (client/mdb.c, client/midl.c).**
`IdList`, `IdSort` and `FreeRuns` are the in-place list algorithms on arrays, `SortLimits`
the exact limit of the sort.  `PageState`
says where every page is; `WriteTxn` is the class of a write transaction with its real
lists, `FreelistSave` the saving of the free list.  `Mvcc` is the reader/writer protocol as
a state machine over its atomic steps, crashes included; `MvccRuns` says what a committed
version contains and what a scan of the reader table finds; `AllocSteps` shows that the
allocator's contract is a sequence of those steps, so the safety of every run applies to the
pages it returns.  `NestedCommit` merges dirty lists.  `SlottedPage` works on the bytes of a
B-tree page; `PageSearch` finds keys in a tree of such pages, `TreeUpdate` inserts and
deletes them and shows that the tree stands for the map the operations leave.

**CRC-32C (kfkcsrc/crc32c.c).**
`Crc32c` proves slicing-by-8 against the bit-at-a-time definition; `Crc32cPoly` proves that
definition to be polynomial division by the generator of section 12.1 of RFC 3720, and two
check values; `Crc32cCombine` proves the GF(2) operators, the three-way combination and the
checksum from start-up on.

**LZ4 blocks (kfkcsrc/lz4.c, kfkcsrc/lz4hc.c).**
`Lz4Format` holds the format and a one-byte-at-a-time reference decoder; `Lz4Coded` says byte
by byte what the decoder makes of any input and when that is what the format says; `Lz4Copy`
holds the wide and overlapping copies; `Lz4Decode` is the decoder with its fast and safe loops,
with history before the output and external dictionaries.  `Lz4Greedy` is the parse of the fast
compressor as a function of the input, over an arbitrary hash function, and `Lz4Encode` the
compressor, which writes exactly that parse.  `Lz4Prices` proves what the prices of the HC
optimal parser are, `Lz4Optimal` is that parser over an arbitrary match finder.
Both end in round trips through the real decoder.

**LZ4 frames (kfkcsrc/lz4frame.c).**
`Lz4FrameFormat` is the frame format of LZ4 Frame Format 1.6.1, sections "Frame Descriptor",
"Data Blocks" and "Skippable Frames", as a reference reader of a whole stream.  The reader
decodes each block with the history in front of its output and notes the blocks that are in
doubt: an external dictionary would make the block decoder refuse them.  `Lz4FrameReader`
compares the two ways of reading a frame.
`Lz4FrameHistory` tracks the 64 KB history through both buffers, `Lz4FrameDecode` is the
stage machine, which chooses the mode of each block from where the history lies,
`Lz4FrameEncode` the compression context, `Lz4FrameStream` puts the two
together.  The block codec enters by its contract; `Lz4FrameCodec` proves that contract of
the block decoder as coded and of compressors that tile their input, and concludes the round
trip for them.  `Lz4FrameSplit` is a frame whose fate depends on the capacity.

**Message cache (client/for_go.cpp).**
`MessageCache` is the write-ahead cache of one topic over an ordered key-value store.

## Where code and comments differ

The model follows the code.

- client/midl.c:36-40 says that a missing ID yields the first position greater than it; on the
  descending list the code returns the first position that is smaller (`IdList.Search`).
- client/midl.h:140-143 sorts any list; client/midl.c:224 and 228 use int indices, and client/midl.c:244
  adds two of them.  Up to 1073741827 entries every sum fits an int and the sort is right
  (`IdSort.Sort`); for every longer length some list makes the sum overflow
  (`SortLimits.SomeListOverflows`).
- client/mdb.c:3040-3078: the loop that validates the reader slot does not cover the copy of the
  meta page.  Two commits in between make the reader work on a newer version than its slot
  names (`Mvcc.LaterVersionCopied`); it stays safe (`Mvcc.ReaderSeesItsVersion`), and the
  version is the slot's exactly under the condition of `Mvcc.CopyIsExact`.
- kfkcsrc/lz4.c:1625-1645 adds lengths up in 32 bits, so a length of 2^32 or more is read as its
  remainder (`Lz4Coded.LongLengthTruncated`), and kfkcsrc/lz4.c:2026-2033 takes an offset of 0,
  which the format forbids, as zeros (`Lz4Coded.ZeroOffsetAccepted`).  Accepted blocks without
  either decode as the format says, the others do not (`Lz4Coded.BlockAgreement`).
- kfkcsrc/lz4.c:1850-1889: the shortcut lets a match end in the last 5 bytes of the output, which
  kfkcsrc/lz4.c:2043-2045 refuses, but not one from an external dictionary.  So for a block that
  breaks the end-of-block rules the result can depend on where the dictionary lies
  (`Lz4Coded.ExternalRefuses`); for a block of the format that keeps them and fits it does not
  (`Lz4Coded.BlockAccepted`).
- kfkcsrc/lz4frame.h:428-445 lets input and output be cut anywhere.  kfkcsrc/lz4frame.c:1617-1674
  decodes a block with the history in front of its output or as an external dictionary, depending
  on the output capacities, so a frame with a block that breaks the end-of-block rules may be
  accepted with one capacity and refused with another (`Lz4FrameSplit.TwoCapacities`).  What every
  split accepts and what none does is `Lz4FrameStream.DecodeAll`, for one call
  `Lz4FrameStream.DecodeOnce` says exactly which capacities refuse, and on frames whose blocks keep
  the rules there is no such difference (`Lz4FrameCodec.LegalFrames`).
- kfkcsrc/lz4hc.c:1401-1413 sets prices with literals before a match; the entries are never dearer
  than those literals, so it changes nothing (`Lz4Optimal.BeforeMatch`).
- kfkcsrc/lz4.c:421-423 asks for 8 writable bytes after the end; for a match shorter than 8 bytes
  the copy writes up to 16 bytes from its start (`Lz4Copy.ShortMatchWritesSixteen`).
- kfkcsrc/lz4frame.h:442-443 describes the hint as the rest of the block and the next header.  While
  a compressed block with a checksum is collected, kfkcsrc/lz4frame.c:1594-1596 counts the checksum
  twice, so the hint can reach past the end of the frame (`Lz4FrameStream.HintInside`).

## Model

| member | source | states |
|---|---|---|
| `IdList.Search` | client/midl.c:34-67 | on a descending list the cursor is the place of the ID exactly when the list holds it; otherwise every entry before the cursor is larger and every entry from it on smaller |
| `IdList.XMerge` | client/midl.c:201-213 | in place, the list becomes the descending multiset union of the two lists and nothing behind it changes, also when the second list lies in the tail of the same array |
| `IdList.MergeIsSortedUnion` | client/midl.c:201-213 | for every two descending lists the tail-first merge order is their descending multiset union |
| `IdSort.Sort` | client/midl.c:220-279 | for every list of up to 1073741827 entries: it ends, the entries are a descending permutation, the rest of the array is untouched, no index leaves the list or the 64-entry stack, and no index sum leaves an int |
| `IdSort.Insert` | client/midl.c:234-239 | the insertion loop, bounded by index 1 only, never passes the start of its segment: it permutes the segment and leaves it sorted |
| `IdSort.Partition` | client/midl.c:256-266 | the scans, which test no index, stop inside the segment; afterwards the segment is a permutation split around the pivot |
| `IdSort.SegmentPartitioned` | client/midl.c:267-276 | postponing the larger part keeps the list sorted apart from the pending segments, keeps every stacked segment at most half the one below it, and decreases the termination measure |
| `IdSort.SortingDepth` | client/midl.c:223-232 | a segment that is still partitioned lies at depth 27 or less, so the stack never overflows |
| `SortLimits.FirstPass` | client/midl.c:244-276 | for every longer list that fits an int, of different entries with nine below its first pivot, the first pass goes on with the segment of the last nine, and the sum of its two ends does not fit an int |
| `SortLimits.SomeListOverflows` | client/midl.c:228-276 | for every length from 1073741828 to the largest int there is a list on which the code comes to a segment, of at least 9 entries, whose two ends it adds although the sum does not fit an int: the bound of Sort is exact |
| `FreeRuns.RunByEnds` | client/mdb.c:2470-2476 | on a strictly descending list the single comparison of the two ends holds exactly when all entries between them are consecutive pages |
| `FreeRuns.FindRun` | client/mdb.c:2467-2479 | returns the run nearest the tail, and 0 exactly when the list contains no run of that many pages |
| `FreeRuns.RemoveRun` | client/mdb.c:2593-2597 | the list loses exactly the entries of the run |
| `FreeRuns.RemoveRunKeepsOrder` | client/mdb.c:2593-2597 | the remaining list is strictly descending and holds exactly the pages outside the run |
| `FreeRuns.InsertRun` | client/mdb.c:6581-6589 | a run of pages not in the list is put back at its place; the list stays strictly descending |
| `FreeRuns.AppendRange` | client/midl.c:185-199 | the whole run is appended in descending page order |
| `PageState.TakeLooseConserves` | client/mdb.c:2444-2452 | reusing a loose page keeps every page in exactly one place |
| `PageState.TakeHeadConserves` | client/mdb.c:2593-2603 | handing out reclaimed pages keeps every page in exactly one place |
| `PageState.TakeNewConserves` | client/mdb.c:2561-2603 | extending the file keeps every page below the new end in exactly one place |
| `PageState.FetchConserves` | client/mdb.c:2526-2559 | consuming the next freeDB record moves its pages and nothing else |
| `PageState.FreePagesConserves` | client/mdb.c:2721-2736 | freeing pages of the tree moves them to mt_free_pgs and nothing else |
| `PageState.LoosenConserves` | client/mdb.c:2152-2157 | loosening a page keeps every page in exactly one place |
| `PageState.ReleaseConserves` | client/mdb.c:6543-6589 | giving an overflow run back to me_pghead keeps every page in exactly one place |
| `PageState.LooseToFreedConserves` | client/mdb.c:3442-3484 | dropping the loose pages into mt_free_pgs keeps every page in exactly one place |
| `PageState.LooseToHeadConserves` | client/mdb.c:3587-3607 | returning the loose pages to me_pghead keeps every page in exactly one place |
| `PageState.SavedIsPartition` | client/mdb.c:964-965 | after a save every non-meta page below the end is either in the tree or in exactly one freeDB record, never both |
| `PageState.BeginConserves` | client/mdb.c:3048-3081 | a transaction begun on such a snapshot starts with every page in exactly one place |
| `WriteTxn.Need` | client/midl.c:143-155 | room for the asked number of entries, the entries unchanged |
| `WriteTxn.Txn.MergeRecord` | client/mdb.c:2537-2558 | the record joins me_pghead, created if there is none, as a descending multiset union, and me_pglast is its key |
| `WriteTxn.Txn.FetchNext` | client/mdb.c:2508-2559 | fetches exactly the next unconsumed record below the low-water mark, looking at the reader table at most once; when it fetches nothing, no record below the scanned mark is left |
| `WriteTxn.Txn.Reclaim` | client/mdb.c:2462-2560 | ends at the lowest run of the asked length; or without such a run, and then no record below the scanned mark is left unconsumed or at least 60 records per page asked for were consumed in vain; a record is consumed only while the list before it has no run, only below the mark and in key order, and none when a run was there at the start |
| `WriteTxn.Txn.TakePages` | client/mdb.c:2561-2605 | hands out exactly the run found, or the pages right after the last one; fails with a full map exactly when there is no run and the file cannot grow |
| `WriteTxn.Txn.PageAlloc` | client/mdb.c:2419-2610 | every outcome: a loose page first, then the lowest run of reclaimed pages, no record consumed when one was there; new pages, or a full map, only when no reclaimed run is long enough and every record below the scanned mark, or 60 records per page asked for, has been consumed; full dirty list and full map exactly as coded; all pages stay accounted for |
| `WriteTxn.Txn.PageLoose` | client/mdb.c:2122-2165 | a page dirtied by this transaction becomes loose unless the freeDB owns it, any other page is freed; all pages stay accounted for |
| `WriteTxn.Txn.PageTouch` | client/mdb.c:2704-2736 | a dirty page is left alone; a clean one is replaced by a different freshly allocated page and freed; the file grows only after the records were tried |
| `WriteTxn.Txn.OvpageFree` | client/mdb.c:6523-6601 | a dirty run returns to me_pghead when that exists, any other run is freed; mt_dirty_room grows by one in the first case only |
| `FreelistSave.Save` | client/mdb.c:3419-3637 | whatever page operations the writes to the freeDB perform, a save that succeeds leaves every non-meta page in the tree or in exactly one record, the unconsumed records unchanged, this transaction's freed pages under its own id and the left-over pages under smaller keys; it fails only for want of pages or with the script of writes used up, and a script of more than 3 txnid + 5 writes, the last 3 txnid + 5 of which touch no page, is never used up: the loops then end; a list too long for the sort is reached only with a map of more pages than that |
| `FreelistSave.DeleteConsumed` | client/mdb.c:3496-3509 | however often the deletions consume more records: afterwards no consumed record is left, and the unconsumed ones are as they were; quiet writes suffice as long as they cover the work that is left |
| `FreelistSave.SaveFreed` | client/mdb.c:3511-3544 | the record of this transaction ends up holding all of mt_free_pgs, sorted, although writing it may free more pages |
| `FreelistSave.Reserve` | client/mdb.c:3549-3584 | (re)writes the record of the smallest key and keeps total_room equal to the room of all reserved records; a record that does not take all that is left gets an equal share rounded up to whole overflow pages, the record of key 1 takes all |
| `FreelistSave.RoomWork` | client/mdb.c:3549-3584 | every rewrite of a reserved record brings the room strictly closer to what is wanted, counted in writes still to come |
| `FreelistSave.WorkBound` | client/mdb.c:3492-3585 | no state of the save needs more than 3 txnid + 5 further writes that change nothing else |
| `FreelistSave.ReturnLoose` | client/mdb.c:3587-3607 | the loose pages, sorted in the tail of me_pghead's own allocation, join me_pghead |
| `FreelistSave.FillStep` | client/mdb.c:3614-3633 | cutting the next record's share off the tail of me_pghead files each of its pages under exactly one key |
| `FreelistSave.Fill` | client/mdb.c:3609-3635 | every entry of me_pghead is filed in exactly one reserved record |
| `FreelistSave.FillDone` | client/mdb.c:3549-3635 | the filled records and the tree together are a partition of the pages: the saved freeDB is what the protocol requires of a commit |
| `Mvcc.StepKeepsInv` | client/mdb.c:2364-2559 | every kind of step of readers, writer, write-back and crash preserves the whole invariant |
| `Mvcc.RunInv` | client/mdb.c:2975-3081 | the invariant holds in every state of every interleaving from an empty environment |
| `Mvcc.FetchedUnused` | client/mdb.c:2508-2532 | a page in a record below the process's cached low-water mark is in no version that is kept, whatever key it was filed under |
| `Mvcc.WriteMetaRecords` | client/mdb.c:3549-3585 | pages filed in the committed freeDB, left-over ones under smaller keys included, are in no version from the larger of their key and the low-water mark on |
| `Mvcc.PhaseStepScan` | client/mdb.c:2364-2381 | during the word-by-word scan of the reader table the minimum so far is at most every id held by a slot already passed, although readers keep coming |
| `Mvcc.AllocationSafe` | client/mdb.c:2505-2559 | in every interleaving, no page handed out belongs to any version from the id of any validated slot on |
| `Mvcc.VersionsFixed` | client/mdb.c:4176-4300 | a committed version never changes |
| `Mvcc.ReaderSeesItsVersion` | client/mdb.c:3040-3078 | as long as a reader works on the version it copied, the map shows all pages of that version unchanged |
| `Mvcc.CrashSafe` | client/mdb.c:4000-4019 | a crash between any two steps leaves the newest meta page naming the old version, or the new one once its meta page is written, with every page of it and of its predecessor intact and its pages partitioned |
| `Mvcc.TwoVersionsKept` | client/mdb.c:4193-4239 | no write of transaction N touches a page of version N-1 or N-2 |
| `Mvcc.CopyIsExact` | client/mdb.c:3040-3078 | the meta page copied after validation is the one the slot names exactly when at most one more version was committed since |
| `Mvcc.LaterVersionCopied` | client/mdb.c:3040-3078 | a run in which the slot names version 0 and the reader works on version 2: copying is not covered by the retry loop |
| `MvccRuns.CommittedContent` | client/mdb.c:4000-4019 | over every run, from the steps of a committed transaction: each page of the new version shows what the last modification after its last allocation wrote, the initial content of a page allocated and not modified, the content in the version before if nothing touched it, and nothing if it was last freed; the version has as many pages more as the transaction took from the end of the file |
| `MvccRuns.ReaderFinds` | client/mdb.c:3040-3078 | at any later point of the run a reader of that version finds exactly that content in the map |
| `MvccRuns.ScanMark` | client/mdb.c:2366-2381 | in every run, with readers at work in between: the mark of a scan is below this transaction, at most every id the scan read, and either one of those ids or one less than the id of the transaction |
| `MvccRuns.NoReaders` | client/mdb.c:2366-2381 | with no reader in any slot during the scan the mark is one less than the id of the transaction |
| `MvccRuns.EverySlotScanned` | client/mdb.c:2366-2381 | the scan passes every slot that was in use when it began |
| `MvccRuns.SlotHolds` | client/mdb.c:3040-3045 | over every run a slot holds the id that was current when its reader loaded it, from the store of it until the reader resets the slot, another one claims it, or a crash |
| `MvccRuns.SlotTaken` | client/mdb.c:3016-3031 | over every run a slot is taken exactly from the claim of a reader until it is freed, or a crash |
| `MvccRuns.ReadersGone` | client/mdb.c:2366-2381 | once all readers have reset their slots, and none stores an id during the scan, the mark is one less than the id of the transaction |
| `MvccRuns.MapHolds` | client/mdb.c:3645-3760 | over every run a page of the map holds what the last write of it put there, and after a crash what is in the file |
| `MvccRuns.FileHolds` | client/mdb.c:4000-4019 | over every run a page of the file holds what the map showed when it was last written back or synced |
| `AllocSteps.FetchedSteps` | client/mdb.c:2508-2559 | what the reclaiming loop does to the page sets is a sequence of FetchRecord steps of the protocol |
| `AllocSteps.AllocatedSteps` | client/mdb.c:2419-2610 | every successful allocation is such steps and one step that hands out exactly the pages returned |
| `AllocSteps.TouchSteps` | client/mdb.c:2704-2736 | copy-on-write is an allocation followed by a Free step of the protocol |
| `AllocSteps.TransactionSteps` | client/mdb.c:2122-2736 | any sequence of allocations, copies-on-write, freed, loose and released pages below one low-water mark is a run of the protocol that changes nothing but the writer |
| `AllocSteps.ScannedAllocation` | client/mdb.c:2508-2532 | an allocation that scans the reader table on its way is reclaiming below the old mark, the scan with any reader steps in between, reclaiming below the new mark, and one step that hands out exactly the pages returned |
| `AllocSteps.AllocationAvoidsReaders` | client/mdb.c:2419-2610 | over a run with the scan of the reader table in mid-allocation and readers at work during it, the pages returned belong to no version that a reader validated by then may use |
| `AllocSteps.SaveEnables` | client/mdb.c:4000-4019 | a finished save of the free list enables the protocol's SaveFreeList step, which keeps the invariant, and the version then committed has its pages partitioned |
| `AllocSteps.SaveForCommit` | client/mdb.c:3419-3637 | mdb_freelist_save, run to success in a transaction with dirty pages, enables that step in every protocol state with its pages; once the writes to the freeDB settle it fails only for want of pages |
| `NestedCommit.Search` | client/midl.c:281-314 | every entry before the cursor is below the page, every entry from it on is not |
| `NestedCommit.Insert` | client/midl.c:316-345 | -1 exactly for a page already listed, else -2 exactly for a full list, else the list gains exactly the entry and stays in order |
| `NestedCommit.UnionIsChildOverParent` | client/mdb.c:3924-3934 | the merge order yields a list in page order that maps every page of either list, to the child's memory where both have it |
| `NestedCommit.MergedLength` | client/mdb.c:3906-3920 | the length computed before anything moves is the length of the merged list |
| `NestedCommit.MergeInto` | client/mdb.c:3924-3933 | the tail-first in-place merge overwrites no unread entry, ends with both indices equal, and frees exactly the parent's entries that the child replaces |
| `NestedCommit.CommitDirty` | client/mdb.c:3906-3936 | the parent's list becomes the union with the child's entries winning and mt_dirty_room still counts the free slots, at any nesting depth |
| `SlottedPage.PageBuffer.NodeAdd` | client/mdb.c:8151-8271 | page full and out-of-pages exactly as coded, then nothing changes; on success the page has exactly one node more, all others keep key and data, and the nodes still tile the used part |
| `SlottedPage.PageBuffer.NodeDel` | client/mdb.c:8278-8328 | the page loses exactly that node; the byte shift leaves every other node unchanged and the tiling exact |
| `SlottedPage.PageBuffer.UpdateKey` | client/mdb.c:8642-8709 | exactly when the larger key does not fit the node is deleted and its page number returned; otherwise only that key changes |
| `SlottedPage.AddedValid` | client/mdb.c:8219-8229 | a block added below the others leaves even-sized, disjoint blocks that cover exactly the used part |
| `SlottedPage.DeletedValid` | client/mdb.c:8303-8327 | closing the gap of a node leaves such blocks, and the sequence of nodes without it |
| `SlottedPage.RekeyedValid` | client/mdb.c:8671-8706 | moving the nodes below a re-keyed node leaves such blocks, and the sequence of nodes with only that key changed |
| `SlottedPage.DeleteUndoesAdd` | client/mdb.c:8278-8328 | deleting an added node gives back the nodes there were |
| `SlottedPage.PgnoRoundTrip` | client/mdb.c:1112-1119 | a 48-bit page number survives being split over three header words |
| `PageSearch.Compare` | client/mdb.c:5764-5780 | negative, zero or positive exactly as the first key is below, equal to or above the second in byte order, a prefix first |
| `PageSearch.NodeSearch` | client/mdb.c:5815-5900 | finds the smallest entry not below the key, with the exact flag right, on leaf and on branch pages, whose first key is never compared |
| `PageSearch.ChildIndex` | client/mdb.c:6354-6369 | the branch followed is the one whose key range holds the key |
| `PageSearch.Find` | client/mdb.c:6322-6392 | from the root of a tree of any height: the search is exact if and only if the tree holds the key, and then returns its place |
| `PageSearch.Descend` | client/mdb.c:6354-6378 | the key is in the tree exactly when it is in the chosen child |
| `PageSearch.AddInOrder` | client/mdb.c:8219-8229 | a node added at the index the search returned keeps the leaf in key order |
| `PageSearch.DelInOrder` | client/mdb.c:8303-8327 | deleting a node keeps the page in key order |
| `PageSearch.RekeyInOrder` | client/mdb.c:8671-8706 | a new branch key between its neighbours keeps the page in key order |
| `PageSearch.AddedKey` | client/mdb.c:8219-8229 | a leaf with a node added where the search says is in order and holds exactly the old keys and the new one |
| `PageSearch.DeletedKey` | client/mdb.c:8278-8328 | a leaf without one of its nodes is in order and holds exactly the other keys |
| `PageSearch.ChangeInTree` | client/mdb.c:8151-8328 | replacing the leaf that the descent reaches by the leaf with the key added, or deleted, leaves a search tree |
| `PageSearch.ChangedInTree` | client/mdb.c:8151-8328 | of all keys of that tree only the one added or deleted comes or goes |
| `TreeUpdate.ChangedSeparate` | client/mdb.c:8151-8328 | the tree with the changed leaf still uses no page twice |
| `TreeUpdate.OneNode` | client/mdb.c:5815-5900 | a search tree has at most one node for a key, so it stands for a map |
| `TreeUpdate.ChangedNode` | client/mdb.c:8151-8328 | with another page for the leaf that a key leads to, the nodes of all other keys are those of the tree before |
| `TreeUpdate.Put` | client/mdb.c:7484-7510 | the descent, the search of the leaf and the byte-level addition as one insert: key-exists exactly when the tree holds the key, refused exactly when the leaf the key leads to has no room or the data needs an overflow page that cannot be had, nothing changed unless added, and then a search tree with exactly the old keys and the new one, whose map from keys to nodes is the old one with the new node |
| `TreeUpdate.NodeOfEntry` | client/mdb.c:8193-8255 | a new leaf node keeps key, size, flags and data of the entry, or of data too large the number of its overflow page, which reads back from its bytes |
| `TreeUpdate.Delete` | client/mdb.c:9312-9326 | the descent and the byte-level deletion as one: found exactly when the tree holds the key, and then a search tree with exactly the other keys, each with the node it had |
| `TreeUpdate.Run` | client/mdb.c:7822-7834 | any sequence of inserts and deletions, stopping only at an insert whose leaf has no place for it: the tree stands for the map from keys to nodes (flags, key, data) that the sequence leaves |
| `TreeUpdate.Unnamed` | client/mdb.c:7822-7834 | over any such sequence a key that no operation names keeps its node, or stays absent |
| `TreeUpdate.LastPut` | client/mdb.c:7484-7510 | an entry that was put, and not removed since, is what the map holds: its key, size, flags and data, or the number of the overflow page of its data |
| `Crc32c.CrcAppend` | kfkcsrc/crc32c.c:94-134 | crc(crc(c, a), b) = crc(c, a + b) for all a, b and c |
| `Crc32c.InitTable` | kfkcsrc/crc32c.c:69-92 | entry n of row k is the register that k+1 zero bytes make of n |
| `Crc32c.SlicingByEight` | kfkcsrc/crc32c.c:107-128 | the xor of eight table entries, one per byte of the word xored into the register, is the register after eight single bytes |
| `Crc32c.CrcSw` | kfkcsrc/crc32c.c:97-134 | for every buffer, start address and initial value the table-driven checksum is the bit-at-a-time CRC-32C |
| `Crc32cPoly.RawIsRemainder` | kfkcsrc/crc32c.c:62-134 | for every start value and message the register is the remainder of polynomial division over GF(2), by the generator of section 12.1 of RFC 3720 written from its exponents, of the message behind the start value with 32 places appended, the lowest bit of a byte first |
| `Crc32cPoly.RemainderUnique` | kfkcsrc/crc32c.c:62-134 | no two registers are congruent modulo the generator, so the remainder fixes the register |
| `Crc32cPoly.PolyIsGenerator` | kfkcsrc/crc32c.c:62-63 | the constant, bits reversed, is the generator without its leading term |
| `Crc32cPoly.CrcIsRemainder` | kfkcsrc/crc32c.c:94-134 | a word is the checksum exactly when its complement is that remainder for the complement of the start value |
| `Crc32cPoly.CheckValue` | kfkcsrc/crc32c.c:97-134 | the nine bytes "123456789" have the check value e3069283 |
| `Crc32cPoly.ZerosValue` | kfkcsrc/crc32c.c:97-134 | 32 zero bytes have the value 8a9136aa of section B.4 of RFC 3720 |
| `Crc32cCombine.MatrixTimes` | kfkcsrc/crc32c.c:144-156 | the product over GF(2), the loop ending before it leaves the matrix |
| `Crc32cCombine.TimesLinear` | kfkcsrc/crc32c.c:144-156 | multiplication by a matrix is linear |
| `Crc32cCombine.SquareDoubles` | kfkcsrc/crc32c.c:160-166 | squaring the operator for n zero bits gives the operator for 2n zero bits |
| `Crc32cCombine.OneBitOperator` | kfkcsrc/crc32c.c:179-185 | the starting matrix applies exactly one zero bit to every register |
| `Crc32cCombine.ZerosOp` | kfkcsrc/crc32c.c:168-208 | for every length the result applies the greatest power of two of zero bytes not above it, and one byte for length 0 |
| `Crc32cCombine.ZerosTable` | kfkcsrc/crc32c.c:210-224 | the four byte tables apply that many zero bytes |
| `Crc32cCombine.Shift` | kfkcsrc/crc32c.c:226-231 | four table entries give the register after the zero bytes |
| `Crc32cCombine.ThreeBlocks` | kfkcsrc/crc32c.c:278-294 | three blocks computed independently, shifted and xored, are the register over their concatenation |
| `Crc32cCombine.CrcHw` | kfkcsrc/crc32c.c:255-338 | with the instructions taken by their definition, the three-way parallel checksum is the bit-at-a-time CRC-32C for every buffer and start address |
| `Crc32cCombine.BlockSizesExact` | kfkcsrc/crc32c.c:233-240 | the two block sizes are powers of two, so the operators built for them are exact |
| `Crc32cCombine.Checksum.constructor` | kfkcsrc/crc32c.c:375-388 | start-up fills the tables that the processor's path needs, exactly |
| `Crc32cCombine.Checksum.Of` | kfkcsrc/crc32c.c:358-368 | after start-up, with or without the instructions, the checksum is the bit-at-a-time CRC-32C |
| `Crc32cCombine.InPieces` | kfkcsrc/crc32c.c:358-388 | from start-up on, checking a buffer in two pieces at any addresses gives the checksum of the whole |
| `Lz4Format.ExtendUnique` | kfkcsrc/lz4.c:2007-2054 | continuing the output with the period of the offset is the byte-at-a-time overlapping copy, and the only way to do so |
| `Lz4Format.LongRunIsLarge` | kfkcsrc/lz4.c:1625-1645 | a length reaches 2^32, where the 32-bit sum wraps, exactly when it starts with 16843009 bytes 255 and a byte that is not 0 |
| `Lz4Format.NotOverlong` | kfkcsrc/lz4.c:1625-1645 | no input of up to 16843009 bytes holds such a length |
| `Lz4Format.BlockDecodes` | kfkcsrc/lz4.c:189-196 | every encoding of a tiling of the data that keeps the end-of-block rules decodes, legally, to the data |
| `Lz4Copy.WildCopy8` | kfkcsrc/lz4.c:356-365 | the 8-byte strides write the period of the distance up to the end, nothing before the start, and at most to the stated overrun |
| `Lz4Copy.WildCopy32` | kfkcsrc/lz4.c:408-419 | the same for 32-byte strides of two halves, for distances from 16 on |
| `Lz4Copy.MatchHead` | kfkcsrc/lz4.c:2026-2039 | for every offset below 8 the table-driven first 8 bytes have the period of the offset, zeros for offset 0, and the source for the rest lies a multiple of it back |
| `Lz4Copy.StridePeriod` | kfkcsrc/lz4.c:367-368 | continuing at that wider distance keeps the period of the offset, and the zeros |
| `Lz4Copy.UsingOffset` | kfkcsrc/lz4.c:421-456 | for every offset, the patterns for 1, 2 and 4 included, the bytes up to the end have the period of the offset, and are zeros for offset 0; other offsets than 1, 2 and 4 write at least 16 bytes |
| `Lz4Copy.ShortMatchWritesSixteen` | kfkcsrc/lz4.c:421-423 | a match of length 4 at offset 3 overwrites the twelfth byte after its end |
| `Lz4Copy.SafeCopy` | kfkcsrc/lz4.c:2007-2054 | refused exactly when the match reaches into the last 5 bytes of the buffer; otherwise the match has the period of the offset, zeros for offset 0, and nothing before it changes |
| `Lz4Coded.Agreement` | kfkcsrc/lz4.c:1841-2055 | wherever the decoder accepts the rest of a block, it agrees with the format exactly when no offset is 0 and no length reaches 2^32; otherwise the format refuses the block |
| `Lz4Coded.Accepted` | kfkcsrc/lz4.c:1900-2055 | the rest of a block that the format decodes, that keeps the end-of-block rules and fits is accepted with the same bytes |
| `Lz4Coded.SeqParsed` | kfkcsrc/lz4.c:1892-1898 | although the error of the length loop is ignored, an accepted block has the literal length of the format |
| `Lz4Coded.BlockAgreement` | kfkcsrc/lz4.c:1653-2068 | an accepted block decodes as the format says if and only if it holds no zero offset and no length of 2^32 or more |
| `Lz4Coded.BlockAccepted` | kfkcsrc/lz4.c:1653-2068 | every block of the format that keeps the end-of-block rules and fits is accepted, wherever its history lies |
| `Lz4Coded.ZeroOffsetAccepted` | kfkcsrc/lz4.c:2026-2033 | a block of 10 bytes whose match has offset 0 is accepted with four zeros in its place |
| `Lz4Coded.ZeroOffsetRefused` | kfkcsrc/lz4.c:1914-1916 | the format refuses that block |
| `Lz4Coded.LongLengthTruncated` | kfkcsrc/lz4.c:1625-1645 | a literal length of 2^32 + 15 is taken as 15: the decoder accepts the block, the format refuses it |
| `Lz4Coded.BlockPrefixAccepts` | kfkcsrc/lz4.c:2307-2320 | what is accepted with an external dictionary is accepted, with the same bytes, when the history lies before the output |
| `Lz4Coded.EmptyAlike` | kfkcsrc/lz4.c:2307-2320 | a block without content is accepted in both modes or in neither |
| `Lz4Coded.ExternalRefuses` | kfkcsrc/lz4.c:1850-1889 | not the other way round: a block whose match reaches into the last 5 bytes of the output is accepted only there |
| `Lz4Decode.ReadVariableLength` | kfkcsrc/lz4.c:1625-1645 | each error exactly as coded; the length is the sum of the bytes up to the first below 255 or the limit, modulo 2^32 |
| `Lz4Decode.LiteralLength` | kfkcsrc/lz4.c:1892-1898 | the length read, its loop error ignored, leads to the result of the whole block; the initial error means that there is none |
| `Lz4Decode.CopyIsAppend` | kfkcsrc/lz4.c:1828-1838 | what any of the copies leaves behind is the byte-at-a-time copy, zeros for an offset of 0, also behind an external dictionary |
| `Lz4Decode.DictCopy` | kfkcsrc/lz4.c:1797-1826 | a match that starts in an external dictionary, and may go on at the start of the output, is the byte-at-a-time copy over dictionary and output |
| `Lz4Decode.FastLoop` | kfkcsrc/lz4.c:1706-1839 | the wide-copy loop stays 64 bytes clear of the end, fails only on inputs that have no result, and hands over to the safe loop at any of its points with the result unchanged |
| `Lz4Decode.Shortcut` | kfkcsrc/lz4.c:1850-1889 | the two-stage shortcut yields the same bytes as the general path |
| `Lz4Decode.DecompressGeneric` | kfkcsrc/lz4.c:1653-2068 | for every input, capacity, history before the output and external dictionary: all accesses are in bounds, it succeeds exactly when the byte-by-byte reading has a result, the output is exactly that result, and the history is kept |
| `Lz4Decode.DecompressSafe` | kfkcsrc/lz4.c:2073-2079 | the same without history: for every input and capacity the result is the one of the byte-by-byte reading, success and failure alike |
| `Lz4Decode.DecodeBlock` | kfkcsrc/lz4.c:1653-2068 | decoding undoes every encoding that tiles the data and keeps the end rules |
| `Lz4Encode.Count` | kfkcsrc/lz4.c:534-558 | the word-wise count is the longest common run before the limit |
| `Lz4Encode.TryPosition` | kfkcsrc/lz4.c:897-952 | the position in the slot of the hash is returned and replaced, and accepted exactly when four bytes match there and, if distances are tested, it is within 65535; in the 16-bit mode the distance is then in range without a test |
| `Lz4Encode.FindMatch` | kfkcsrc/lz4.c:892-953 | the accelerating search is the search of the parse: same position, same match, same table |
| `Lz4Greedy.FirstHit` | kfkcsrc/lz4.c:892-953 | among the positions visited, in steps that grow every 64 misses, the search stops at the first where the slot, after all earlier visits were entered, holds a match, and gives up only when there is none |
| `Lz4Encode.CatchUp` | kfkcsrc/lz4.c:955-957 | extends backwards as far as bytes are equal, not past the anchor or the start, and keeps the match genuine |
| `Lz4Encode.EmitLiterals` | kfkcsrc/lz4.c:959-984 | token, length bytes and literals appended, over-writes of the wild copy included within the bound; fails exactly when the output is limited and the code asks for more than is left |
| `Lz4Encode.WriteMatchLength` | kfkcsrc/lz4.c:1061-1073 | storing four 255s at a time leaves the bytes of the one-at-a-time encoding |
| `Lz4Encode.EmitMatch` | kfkcsrc/lz4.c:1002-1074 | offset and maximal match length appended and merged into the token; fails exactly when the output is limited and the code asks for more than is left |
| `Lz4Encode.Chain` | kfkcsrc/lz4.c:986-1140 | one match and every match found right after it extend the tiling of the input as the parse does; it fails only for an output the whole parse overflows |
| `Lz4Encode.BlockSize` | kfkcsrc/lz4.h:170-171 | any block of a tiling fits n + n/255 + 16 |
| `Lz4Encode.CompressGeneric` | kfkcsrc/lz4.c:787-1177 | the output is exactly the block of the parse whenever that fits, and 0 otherwise or for an unsupported size; the block is an encoding of a tiling of the input that keeps the end rules |
| `Lz4Encode.CompressFast` | kfkcsrc/lz4.c:1180-1200 | the same with the table and mode chosen by size; with an output of LZ4_compressBound bytes, every input up to LZ4_MAX_INPUT_SIZE compresses |
| `Lz4Greedy.EqualBytes` | kfkcsrc/lz4.c:892-1140 | the parse of 13 or more equal bytes is one literal and one match at distance 1 up to the last five bytes |
| `Lz4Encode.CompressEqual` | kfkcsrc/lz4.c:1180-1200 | n >= 13 equal bytes, whatever the hash: exactly that sequence and five last literals, 10 + (n + 230)/255 bytes, whenever they fit |
| `Lz4Encode.HundredBytes` | kfkcsrc/lz4.c:959-1140 | that block for 100 bytes, byte for byte |
| `Lz4Encode.RoundTrip` | kfkcsrc/lz4.c:1180-1200 | for every input, hash function, table, acceleration and capacity: decoding a successful compression returns the input |
| `Lz4Prices.PriceIsSize` | kfkcsrc/lz4hc.c:1224-1250 | the price of a sequence or of last literals is the exact size of its encoding |
| `Lz4Prices.StepPriced` | kfkcsrc/lz4hc.c:1415-1458 | a step keeps the invariant of the prices: each is that of a literal or of an offered match, and none is above what an offered match allows |
| `Lz4Prices.NotDearer` | kfkcsrc/lz4hc.c:1415-1458 | a step never raises the price of a position the segment had reached |
| `Lz4Prices.PriceIsCost` | kfkcsrc/lz4hc.c:1328-1464 | the price of every position is the exact encoded size of the way the table holds to it |
| `Lz4Prices.Cheapest` | kfkcsrc/lz4hc.c:1364-1464 | no way of literals and offered matches, cut to any length, is cheaper than the price of the position it reaches |
| `Lz4Prices.NoCheaperLiterals` | kfkcsrc/lz4hc.c:1401-1413 | literals after the current position never cost less than what the table holds |
| `Lz4Optimal.FirstMatch` | kfkcsrc/lz4hc.c:1328-1362 | after the first match every table entry is a literal or a verified match that ends there, priced by its way |
| `Lz4Optimal.BeforeMatch` | kfkcsrc/lz4hc.c:1401-1413 | the loop that sets prices with literals before a match leaves the table as it is |
| `Lz4Optimal.MatchLengths` | kfkcsrc/lz4hc.c:1415-1450 | an entry becomes the match exactly when it lies past the trailing literals or its price is at most the old one less the favour for speed; every entry stays a literal or a verified match |
| `Lz4Optimal.FillTable` | kfkcsrc/lz4hc.c:1364-1464 | prices stay those of the ways in the table, no position is left unsearched but by the two rules of the code, and the choice handed to the traversal is the last entry or a match that is long enough |
| `Lz4Optimal.Reverse` | kfkcsrc/lz4hc.c:1470-1484 | the reverse traversal always ends at position 0 and leaves the steps of the way in the table, in forward order |
| `Lz4Optimal.EncodeStep` | kfkcsrc/lz4hc.c:459-530 | one sequence appended to the encoding of a tiling, as many bytes as its price; fails only when the output is limited and the block with its literals would not fit |
| `Lz4Optimal.EncodePath` | kfkcsrc/lz4hc.c:1486-1498 | encoding the path in order extends the tiling to its end by as many bytes as its matches cost |
| `Lz4Optimal.Segment` | kfkcsrc/lz4hc.c:1328-1498 | a segment takes exactly the cost of its way, and no way of the same length over the matches offered costs less, but for a match at its end that was long enough at once |
| `Lz4Optimal.NoWorseThanFirst` | kfkcsrc/lz4hc.c:1318-1362 | a segment costs no more than the first match and literals after it |
| `Lz4Optimal.CompressOptimal` | kfkcsrc/lz4hc.c:1278-1530 | every success is an encoding of a tiling of the input that keeps the end rules; its size is the sum of the segments, each the cheapest of its matches, and the last literals, before which nothing more was found; 0 only for a limited output that the block overflows |
| `Lz4Optimal.OptimalRoundTrip` | kfkcsrc/lz4hc.c:1278-1530 | with any finder of genuine matches, decoding the block returns the input |
| `Lz4FrameFormat.HeaderRoundTrip` | kfkcsrc/lz4frame.c:671-698 | parsing a written header gives back the preferences it was written from, and its size is the one its flags announce |
| `Lz4FrameCodec.ReferenceCodec` | kfkcsrc/lz4frame.c:1628-1631 | the format's decoder gives the same content with any dictionary that ends in the last 64 KB of the history |
| `Lz4FrameCodec.CodedCodec` | kfkcsrc/lz4frame.c:1628-1631 | so does the block decoder as coded, with the history before its output or as an external dictionary, for every block it accepts |
| `Lz4FrameCodec.CodedCodecOk` | kfkcsrc/lz4frame.c:1628-1674 | the block decoder as coded, in whichever mode each block finds it, meets what the frame layer asks of its codec: only the last 64 KB of the history matter, and the two modes differ only where a block with content and with a dictionary is refused with the dictionary elsewhere |
| `Lz4FrameCodec.ReferenceCodecOk` | kfkcsrc/lz4frame.c:1628-1674 | so does the format's decoder |
| `Lz4FrameReader.ExternalReader` | kfkcsrc/lz4.c:2307-2320 | the reference reader with external dictionaries accepts exactly the frames in which the other one finds no block in doubt, and reads them alike |
| `Lz4FrameCodec.LegalAlike` | kfkcsrc/lz4.c:2307-2320 | a block of the format that keeps the end-of-block rules has the same result in both modes |
| `Lz4FrameCodec.LegalFrames` | kfkcsrc/lz4frame.c:1628-1674 | on frames of such blocks the two readers agree, so every way of feeding them has the same result |
| `Lz4FrameSplit.LateBlockReads` | kfkcsrc/lz4.c:1850-1889 | a 279-byte block that decodes to 64 KB is accepted if and only if its last match does not reach into an external dictionary |
| `Lz4FrameSplit.LateFrameReads` | kfkcsrc/lz4frame.c:1617-1674 | a frame of a stored 64 KB block and that block reads well, with the second block in doubt |
| `Lz4FrameSplit.TwoCapacities` | kfkcsrc/lz4frame.c:1617-1674 | one call refuses that frame exactly when its output capacity lies between 64 KB and 128 KB, both excluded, and completes it from 128 KB on |
| `Lz4FrameCodec.CompressedBlock` | kfkcsrc/lz4frame.c:746-755 | a block of either block compressor decodes, on any history, to its input |
| `Lz4FrameCodec.TiledDecodes` | kfkcsrc/lz4frame.c:746-755 | a block that tiles its content on a history and keeps the end-of-block rules decodes to the content, by the format and as coded |
| `Lz4FrameCodec.TilingPackOk` | kfkcsrc/lz4frame.c:733-761 | a compressor that returns such blocks, or none, meets what the frame layer asks of it in both modes |
| `Lz4FrameCodec.RoundTrip` | kfkcsrc/lz4frame.c:823-1840 | with the block decoder as coded, its mode chosen block by block as the code does, and any such compressor, content written in any pieces and read in any pieces comes back |
| `Lz4FrameHistory.SettledTail` | kfkcsrc/lz4frame.c:1618-1631 | whenever a block is about to be decoded, the dictionary ends in the last min(64 KB, total) bytes decoded and reaches no further back than they do |
| `Lz4FrameHistory.UpdateDict` | kfkcsrc/lz4frame.c:1284-1349 | each of the six ways of moving the history keeps it right after more bytes were delivered |
| `Lz4FrameHistory.IntoTmp` | kfkcsrc/lz4frame.c:1316-1328 | the history copied in front of a half-flushed block is right once the block is out |
| `Lz4FrameHistory.CompleteTmp` | kfkcsrc/lz4frame.c:1330-1339 | appending to the history in tmpOutBuffer, cut to 64 KB when full, keeps it right |
| `Lz4FrameHistory.JoinTmp` | kfkcsrc/lz4frame.c:1341-1348 | the joined pieces are the right history |
| `Lz4FrameHistory.Preserve` | kfkcsrc/lz4frame.c:1805-1835 | between calls the history leaves the caller's buffer without losing a needed byte |
| `Lz4FrameHistory.PrepareTmp` | kfkcsrc/lz4frame.c:1647-1659 | room for a block is made behind exactly the history it may need |
| `Lz4FrameDecode.DecodeHeader` | kfkcsrc/lz4frame.c:1109-1198 | complete, partial, skippable and invalid headers all leave the stage from which the reference reader reads the same frame |
| `Lz4FrameDecode.GetBlockHeaderStep` | kfkcsrc/lz4frame.c:1455-1508 | the block header stage, however the input is split, agrees with the reference reader |
| `Lz4FrameDecode.CopyDirectStep` | kfkcsrc/lz4frame.c:1510-1542 | stored blocks are delivered piecewise with checksums, content size and history kept in step |
| `Lz4FrameDecode.BlockChecksumStep` | kfkcsrc/lz4frame.c:1545-1573 | the checksum of a stored block is accepted exactly when the reference reader accepts it |
| `Lz4FrameDecode.CBlockStep` | kfkcsrc/lz4frame.c:1575-1684 | compressed blocks, read whole or collected, decode to what the reference reader gets, into the output or into tmpOutBuffer; an error means that the reader rejects the frame or that the block is in doubt, with the history not in front of its output |
| `Lz4FrameDecode.UnpackToDst` | kfkcsrc/lz4frame.c:1617-1645 | decoding into the output, with the mode that the place of the dictionary gives: refused only if the reader rejects the frame or the block is in doubt and the dictionary elsewhere; bytes change up to the maximal block size, history and earlier output do not |
| `Lz4FrameDecode.UnpackToTmp` | kfkcsrc/lz4frame.c:1647-1684 | decoding into tmpOut, in front of which a dictionary in tmpOutBuffer ends; with any other dictionary an accepted block is not in doubt; whatever is written behind the block, the history stays intact |
| `Lz4FrameDecode.Overrun` | kfkcsrc/lz4frame.c:1628-1632 | any bytes written where a block is to be delivered leave the history and what was delivered as they were |
| `Lz4FrameDecode.FlushStep` | kfkcsrc/lz4frame.c:1686-1705 | flushing delivers the next bytes of the block and loses none |
| `Lz4FrameDecode.SuffixStep` | kfkcsrc/lz4frame.c:1707-1754 | the frame ends exactly when content size and checksum agree |
| `Lz4FrameDecode.SkipStep` | kfkcsrc/lz4frame.c:1791-1801 | a skippable frame ends after exactly its announced size |
| `Lz4FrameDecode.Step` | kfkcsrc/lz4frame.c:1395-1803 | every stage keeps the invariant with the reference reader, makes progress, creates no output without input, and passes a block in doubt only where its maximal size fits in front of the end of the room, as long as the history ends where the output begins |
| `Lz4FrameDecode.Decoder.constructor` | kfkcsrc/lz4frame.c:1065-1076 | a new context is ready for a frame |
| `Lz4FrameDecode.Decoder.Decompress` | kfkcsrc/lz4frame.c:1371-1840 | any slice of input and any capacity: an error only on a frame the reference reader rejects or over a block in doubt, 0 only at the end of a frame it accepts with exactly its content delivered, otherwise input or output is used up and the hint is that of the stage; nothing outside the output buffer given is written, and the history is intact whatever the block decoder leaves behind its output |
| `Lz4FrameEncode.BoundMonotone` | kfkcsrc/lz4frame.c:324-349 | the bound grows with what is buffered |
| `Lz4FrameEncode.BoundIsWorst` | kfkcsrc/lz4frame.c:324-349 | the bound is exactly the size, in stored blocks, of what may have to be emitted, and of the end of the frame |
| `Lz4FrameEncode.BoundCoversCost` | kfkcsrc/lz4frame.c:324-349 | it covers the blocks of an update and leaves room for the end of the frame |
| `Lz4FrameEncode.EndFits` | kfkcsrc/lz4frame.c:318-349 | LZ4F_compressBound(0) covers a flush of anything buffered and the end of the frame |
| `Lz4FrameEncode.HeaderLeads` | kfkcsrc/lz4frame.c:671-701 | the reference reader passes over a written header to the first block |
| `Lz4FrameEncode.BlockLeads` | kfkcsrc/lz4frame.c:739-761 | the reference reader passes over a written block and gains its content |
| `Lz4FrameEncode.Encoder.Begin` | kfkcsrc/lz4frame.c:600-702 | fails exactly below 19 bytes of capacity; otherwise the header is written and the context valid |
| `Lz4FrameEncode.Encoder.MakeBlock` | kfkcsrc/lz4frame.c:739-761 | given that the history is in its place: the compressor's block with its size exactly when there is one, else the content with the uncompressed flag, then the checksum of what was written; at most 4 + n bytes and the checksum, standing for the content, whatever the compressor writes within its capacity of n - 1 bytes, and nothing beyond that is written |
| `Lz4FrameEncode.KnownFrame` | kfkcsrc/lz4frame.c:671-761 | the frame of the one byte "a", byte for byte: magic number, descriptor, second byte of its XXH32, stored block, end mark, content checksum; and the reader reads it back |
| `Lz4FrameEncode.KnownSkippable` | kfkcsrc/lz4frame.c:1120-1130 | a skippable frame, byte for byte: any of its 16 magic numbers, the size, and that many bytes passed over |
| `Lz4FrameEncode.StaysInPlace` | kfkcsrc/lz4frame.c:845-866 | buffering input from tmpIn on leaves the history of linked blocks, which lies before it, as it was |
| `Lz4FrameEncode.Encoder.TmpBlock` | kfkcsrc/lz4frame.c:854-869 | a block compressed from tmpBuff finds its history intact, is what the compressor gives for it, and joins the history where the two are adjacent |
| `Lz4FrameEncode.Encoder.SaveDict` | kfkcsrc/lz4frame.c:807-812 | the last 64 KB of the history, wherever they lie, become the start of tmpBuff |
| `Lz4FrameEncode.Encoder.PlaceTmp` | kfkcsrc/lz4frame.c:893-912 | afterwards the history lies in tmpBuff before tmpIn or in a source the caller keeps stable, and a block fits behind tmpIn |
| `Lz4FrameEncode.Encoder.Update` | kfkcsrc/lz4frame.c:823-925 | fails exactly without a frame or below the bound; otherwise all input is compressed or buffered, within the bound, nothing else is written, and the history of linked blocks is intact in tmpBuff or in a stable source |
| `Lz4FrameEncode.Encoder.Flush` | kfkcsrc/lz4frame.c:936-972 | fails exactly below tmpInSize + 8; otherwise everything taken so far is in the output |
| `Lz4FrameEncode.Encoder.End` | kfkcsrc/lz4frame.c:984-1018 | fails exactly when the flush does not fit, when the end mark and checksum do not fit behind the flushed block, or on a wrong content size, and with LZ4F_compressBound(0) bytes only then; otherwise the output is a frame whose content is everything given |
| `Lz4FrameEncode.Encoder.EnoughForUpdate` | kfkcsrc/lz4frame.c:721-729 | LZ4F_compressBound covers every update, whatever is buffered |
| `Lz4FrameStream.Unfinished` | kfkcsrc/lz4frame.c:1837-1839 | wherever a call stops with a nonzero hint, part of the frame is still to come |
| `Lz4FrameStream.HintInside` | kfkcsrc/lz4frame.h:442-445 | as many bytes as the hint says are still to come of the frame, if and only if it is not a cut header of a skippable frame of less than 3 bytes, nor a collected last block whose checksum is counted twice in a frame without content checksum |
| `Lz4FrameStream.DecodeAll` | kfkcsrc/lz4frame.c:1371-1840 | for every byte stream and every split of input and output: what is accepted is what the reference reader accepts, with its content and its end, so what it rejects is rejected; what it accepts with external dictionaries is accepted |
| `Lz4FrameStream.DecodeOnce` | kfkcsrc/lz4frame.c:1371-1840 | one call with all of a good frame: refused if and only if a block in doubt starts inside the capacity and its maximal size reaches beyond it, otherwise complete whenever the content fits (with a byte to spare if a compressed block has no content) |
| `Lz4FrameStream.AllCapacities` | kfkcsrc/lz4frame.c:1617-1674 | the limits of DecodeAll are exact: every good frame is accepted with a large enough capacity, and no capacity of one call makes it refused if and only if it is good with external dictionaries too |
| `Lz4FrameStream.MoreToCome` | kfkcsrc/lz4frame.c:1474-1508 | where a call stops for lack of room there is content to come, or a compressed block without any |
| `Lz4FrameStream.EncodeAll` | kfkcsrc/lz4frame.c:823-1018 | for every sequence of updates and flushes the output is one frame with exactly the content, unless the announced size is wrong |
| `Lz4FrameStream.RoundTrip` | kfkcsrc/lz4frame.c:1371-1840 | any split into updates and flushes, then any split of the frame and of the output: the content comes back |
| `Lz4FrameStream.RoundTripOnce` | kfkcsrc/lz4frame.c:1371-1840 | any split into updates and flushes, then one call with room for exactly the content or more: the content comes back |
| `MessageCache.PaddedOrder` | client/for_go.cpp:219-223 | zero-padded decimals sort as the numbers do |
| `MessageCache.MessageOrder` | client/for_go.cpp:219-223 | the keys of a topic sort by message number and differ for different numbers |
| `MessageCache.CounterLast` | client/for_go.cpp:208-217 | the counter key sorts after every message of a topic without characters from ~ on |
| `MessageCache.FirstKey` | client/for_go.cpp:230-239 | the first key of the store belongs to the smallest cached number |
| `MessageCache.Storage.Evict` | client/for_go.cpp:230-239 | the loop ends and leaves exactly the messages at most 50000 numbers old |
| `MessageCache.Storage.Send` | client/for_go.cpp:208-245 | the message gets the next number, is stored under it and the counter advances; only too old messages go |
| `MessageCache.Storage.Receipt` | client/for_go.cpp:194-205 | exactly the message named is removed, and it is reported whether it was there |
| `MessageCache.RunKeeps` | client/Producer.cpp:12-18 | over every sequence of sends and receipts: numbers are given once, in order, and the cache holds exactly the accepted messages that were not acknowledged since and are at most 50000 numbers old |
| `MessageCache.RunBound` | client/for_go.cpp:230-239 | at most 50001 messages are ever held |
| `MessageCache.Drive` | client/for_go.cpp:194-245 | the stored keys and values stand for that cache after every sequence, from an empty store |

## Left out

LMDB:

- Spilled pages, DUPSORT and LEAF2 pages, sub-databases, page splits, merges and rebalancing, cursors other than the one at work.
- Environment opening, mapping, locking, robust mutexes, I/O errors, torn meta pages and MDB_NOSYNC: a meta page is written and copied atomically, although a reader copies mm_dbs and reads mm_last_pg one after the other, and the sync before it takes effect.
- Page contents in `Mvcc` are abstract values and initial contents are one value; `SlottedPage` and `PageSearch` model the bytes.
- Which page operations a write to the freeDB performs: they come from a script, and a save the script does not let finish fails.
- Contents of this transaction's own freeDB record while the loop is still at work: nothing reads it before the copy that ends the loop.
- In the return of the loose pages the list is sorted in an array of its own before it is copied into the tail of me_pghead.
- IdSort.Sort: lists of more than 1073741827 entries are outside its precondition, because an index sum can overflow an int there, which is undefined in C.
- WriteTxn.Txn.PageLoose: the branches for nested transactions and for spilled pages, because neither is modelled beyond the dirty lists of `NestedCommit`.
- WriteTxn.Txn.PageTouch: the same branches.
- WriteTxn.Txn.OvpageFree: the search of a parent's dirty list and the spilled pages.
- FreelistSave.Save: promises nothing about the transaction when the save fails, as the caller then aborts.
- FreelistSave.Fill: the puts with MDB_CURRENT rewrite records in their place on pages that are dirty by then, and are taken to perform no page operation.
- SlottedPage.PageBuffer.NodeAdd: the offset array and the two bounds are kept beside the page bytes, and the contents of an overflow page are not modelled.
- PageSearch.Compare: user-supplied and integer key comparisons; keys are compared by mdb_cmp_memn.
- PageSearch.ChangeInTree: changes one leaf in its place; page splits and rebalancing are not modelled, and the copy-on-write of the path is `WriteTxn.Txn.PageTouch`, not repeated here.
- TreeUpdate.Run: for the same reason stops at the first leaf without room.
- TreeUpdate.Put: likewise ends with a refusal where the code would split the leaf, and does not overwrite the data of a key the tree holds.

CRC-32C:

- The crc32 instructions are taken by their definition, one byte step after another.

LZ4:

- Compression with a dictionary, fillOutput, partial decoding, the deprecated decompress_fast family, the pointer table of 32-bit targets, contexts reused without a reset.
- Overflow of acceleration shifted by 6 in an int, and a null source pointer.
- Counting trailing zero bits in LZ4_NbCommonBytes: modelled as the first differing byte.
- The HC match finder: any finder whose matches are genuine, of length 0 or at least 4.
- Lz4Decode.DecompressGeneric: the value of a negative result, which names the input position of the error.

LZ4 frames:

- XXH32 is an arbitrary function to 32-bit values; the compressor's hash tables enter by its contract.
- Lz4FrameStream.DecodeAll: which splits into several calls refuse a good frame with blocks in doubt, because that depends on where each call leaves the history; `Lz4FrameStream.DecodeOnce` says it for one call, and `Lz4FrameStream.AllCapacities` that some split accepts such a frame and some refuses it.
- Bytes left behind by the block decoder and the compressor are arbitrary, as far as their capacity reaches.
- A source buffer that happens to follow an earlier stable one in memory is taken as a new one.
- Compression levels, external dictionaries, getFrameInfo, compressFrame and the block size chosen by it, the default block size id 0, allocation failures, contexts used again after an error.
- The internal buffers are sequences; a caller's buffer that happens to start where tmpOutBuffer or another of its buffers ends is not modelled.
- The 32-bit truncation of the number of full blocks in the bound, reached only beyond 2^32 blocks.

Message cache:

- Messages without a key and re-sending, several topics in one store, crashes inside a call, the C buffer sizes of printed keys and the truncation of long keys and values.
- MessageCache.Storage.Send: the hand-over of the message to the Kafka producer.

Not modelled at all:

- The Kafka protocol in kfkcsrc/rdkafka*.c (brokers, consumer groups, message sets, transactions, security), because it is a distributed protocol of its own and none of the engines above depends on it.
- The other data structures and codecs of kfkcsrc (AVL trees, Snappy, histograms, buffers), because none of the engines above uses them.
- The C++ wrappers around producer and consumer, the LevelDB example, logging and packaging, which hold no algorithm of their own.
