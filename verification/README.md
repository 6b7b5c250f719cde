# FreeFood storage and message formats: verification models

FreeFood carries two libraries for stored and exchanged data in `Pods`: LevelDB, an ordered key-value store on
log-structured merge trees, and nanopb, an encoder and decoder for Protocol Buffers in C. This project models both
in Dafny and proves what they promise to their users. A single run of `dafny verify dfyconfig.toml` checks all of it.

## What is modelled

**The store.** A database is a stack of entries: a memtable, a memtable being flushed, and seven levels of tables.
Entries carry a user key, a sequence number and a kind (a value or a deletion), and a read at a snapshot means the
newest entry of the user key at or below it.

- `InternalKeys`, `Versions`: entries, reads, and the shape of a version. `LevelSearch`, `VersionGet`: searching it.
- `Picking`, `Install`, `VersionBuilder`: choosing compaction inputs, flushes, moves and compactions as installs, and
  the builder that applies edits. `CompactionWork`, `OutputCuts`, `GrandparentOverlap`, `CompactionReads`,
  `CompactionTheorem`: the merge loop, where it cuts its output and why, and what a compaction does to reads. `ResurfacingDeletion`, `ResurfacingRun`: where
  it goes wrong.
- `Cursors`, `Merging`, `DBIter`, `StoreIteration`, `Snapshots`: iterators over sorted runs and over the live pairs of a
  snapshot.
- `StoreReads`, `Durability`, `StoreRestart`, `LogReplay`: the protocol of logs, memtables, tables and manifest as a
  state machine in which the process may stop between any two steps, and recovery.
- `GroupCommit`, `GroupReads`: the queue of writers as a state machine over all interleavings, and what is read then.
- `SkipList`, `SkipListReaders`: the memtable's list, and lock-free readers against the one inserter.
- `CircularLists`, `HandleTable`, `LruCache`: one shard of the block cache.

**The files.** Files are byte sequences that grow at the end.

- `Coding`, `VarintLimits`, `Checksums`: integers as bytes, masked checksums.
- `LogFormat`, `LogReader`, `LogRoundTrip`, `LogDamage`: the log format, cut off at any byte, and any file read as one.
- `EditRecords`, `ManifestReplay`, `ManifestFile`: manifest records, replay, and a manifest file from end to end.
- `BlockFormat`, `BlockReader`, `BlockIter`, `BlockRoundTrip`: blocks with shared prefixes and restart points.
- `Bloom`, `FilterBlock`: filters. `Separators`, `Division`, `TableProgress`, `TableBuilder`, `TableFormat`, `Tables`,
  `TableGet`, `TableRoundTrip`: whole tables, from the builder to lookups and scans of the finished file.

**Messages.** `ProtoFields`, `ProtoEncode`, `ProtoDecode`, `ProtoReader`, `ProtoRoundTrip`: descriptors, the encoder
with its sizing pass, the decoder with its bitmap of required fields, and the round trip. `ProtoForward`,
`ProtoAccepts`: unknown fields, fields that come again, and whatever else the decoder takes or refuses.

Where the source updates an object in place, a class with its fields does the same, and each method is proved against
a function or predicate on values; the lemmas are about those. Some predicates are stated for values marked
`Opened` only (`Basics`), which keeps their definitions out of proofs that just pass them on.

## Findings

| place | what happens | input and exact condition |
|---|---|---|
| FreeFood/Pods/leveldb-library/db/version_set.cc:1401-1422 | The inputs of the next level are the files that overlap, not closed by boundary files as those of the level are. When the last of them ends inside a user key, a dropped deletion can uncover a value that stays behind in the file after it. | `ResurfacingDeletion.DeletedValueResurfaces` gives the version and the only compaction the picker can set up in it; `ResurfacingRun.RunResurfaces` reaches it in a run of the database from its creation on: four writes, three flushes, a snapshot that keeps a value and its deletion until a size cut falls between them, and one more compaction, after which a read gives the deleted value. Reads are preserved exactly when no user key resurfaces (`CompactionTheorem.CompactionPreservesReadsExactly`), for which it is enough that the next level's inputs end between user keys (`CompactionTheorem.CompactionPreservesReads`). Every statement about runs carries this condition, `Durability.HarmlessUpTo`, as a requirement, which RunResurfaces shows cannot be dropped, or the simple one through `Durability.CutsAreHarmless`. |
| FreeFood/Pods/nanopb/pb_decode.c:1012-1069 | Required fields after the 64th are not checked. | `ProtoRoundTrip.LeftOutField`: a message without one of its fields is refused exactly when the field is one of the first 64 required ones. `ProtoRoundTrip.RequiredCheck`: the same for any bytes that parse. |
| FreeFood/Pods/nanopb/pb_encode.c:875-899 | A string that fills its whole buffer is encoded, and refused by pb_dec_string, which wants room for a terminator. | `ProtoRoundTrip.StringReadsBackIff`: refused exactly when the string up to its first zero is as long as the buffer. |
| FreeFood/Pods/leveldb-library/db/version_edit.cc:26-39 | Clear leaves the compaction pointers, so an edit decoded into an object that is used again gains the old ones. | `EditRecords.EditReadsBack`: the decoded edit has the pointers from before in front of its own; it is the encoded edit exactly when there were none. |

## Model

| member | source | states |
|---|---|---|
| CompactionTheorem.CompactionPreservesReadsExactly | FreeFood/Pods/leveldb-library/db/db_impl.cc:878-1018 | Whatever the inputs, the merge loop and the install change no read at the oldest live snapshot or later, for any user key, exactly when no dropped deletion uncovers a value in a table that stays (`Resurfaces`) |
| CompactionTheorem.CompactionPreservesReads | FreeFood/Pods/leveldb-library/db/db_impl.cc:878-1018 | In a version that keeps the invariant, inputs of the next level that end between user keys are enough: every such read is the same before and after the compaction |
| CompactionTheorem.OlderVersionNeedsSplitUser | FreeFood/Pods/leveldb-library/db/version_set.cc:1533-1552 | With such inputs, an older entry of a user key can only stay behind where IsBaseLevelForKey answers no, so its deletion is not dropped |
| CompactionTheorem.WorkGivesGoodOutputs | FreeFood/Pods/leveldb-library/db/db_impl.cc:811-876 | The tables that the merge loop cuts meet everything the install step asks of new tables |
| CompactionReads.ReadsPreservedExactly | FreeFood/Pods/leveldb-library/db/db_impl.cc:946-960 | The drop rule on sets of entries: reads are preserved exactly when no user key resurfaces |
| CompactionWork.LoopFollowsRule | FreeFood/Pods/leveldb-library/db/db_impl.cc:930-963 | Comparing with the previous entry only, as the loop does, keeps the same entries as comparing with all newer ones |
| CompactionWork.CutsAreDisjointSorted | FreeFood/Pods/leveldb-library/db/db_impl.cc:920-995 | However the kept run is cut, the tables are valid, sorted and disjoint |
| CompactionWork.CompactionRun.DoCompactionWork | FreeFood/Pods/leveldb-library/db/db_impl.cc:878-1018 | The outputs hold, in order, exactly the entries that the drop rule keeps, in disjoint sorted tables with fresh consecutive numbers and the sizes their builders report; a table goes on past no entry at which ShouldStopBefore says stop and past no entry with which it is large enough, and every table but the last ends at one of these |
| CompactionWork.CompactionRun.ShouldDrop | FreeFood/Pods/leveldb-library/db/db_impl.cc:930-963 | The drop decision for one entry: hidden by a newer entry at or below the smallest snapshot, or a deletion there for which the level is the base level |
| CompactionWork.CompactionRun.IsBaseLevelForKey | FreeFood/Pods/leveldb-library/db/version_set.cc:1533-1552 | Pointers that never move back give the exact answer, for user keys asked in increasing order: no file two or more levels down covers the user key |
| CompactionWork.CompactionRun.ShouldStopBefore | FreeFood/Pods/leveldb-library/db/version_set.cc:1554-1576 | Passes exactly the grandparents that end before the key, adds up the sizes of those passed since the last stop, and says to stop exactly when the sum exceeds the limit |
| CompactionReads.KeptExactlyIfSeen | FreeFood/Pods/leveldb-library/db/db_impl.cc:930-963 | An entry is kept exactly when some reader at the smallest snapshot or later still sees it among the inputs and it is not a deletion with nothing to hide |
| GrandparentOverlap.StopsForOverlap | FreeFood/Pods/leveldb-library/db/version_set.cc:1554-1576 | The loop stops at an entry exactly when the files two levels down that end between the last stop and this entry are larger than the limit |
| GrandparentOverlap.NoTableOverlapsTooMuch | FreeFood/Pods/leveldb-library/db/version_set.cc:1554-1576 | The files two levels down that end inside one output table are together no larger than the limit |
| ResurfacingDeletion.DeletedValueResurfaces | FreeFood/Pods/leveldb-library/db/version_set.cc:1401-1422 | A version that keeps every invariant, and the one compaction that the picker sets up in it, after which a deleted value is read again |
| ResurfacingRun.RunResurfaces | FreeFood/Pods/leveldb-library/db/version_set.cc:1401-1422 | A run of the database from its creation, through the logs, flushes, snapshots and commits of the protocol, whose last compaction, picked and worked out as the code does and below no live snapshot, makes a read give a value that was deleted before; up to that compaction the run is harmless and reads are right, so `HarmlessUpTo` cannot be left out of RunServesReads |
| ResurfacingRun.SizeCut | FreeFood/Pods/leveldb-library/db/db_impl.cc:920-995 | With a size limit that two entries reach, the cut rule of the merge loop gives exactly the tables of that run |
| Picking.AddBoundaryInputs | FreeFood/Pods/leveldb-library/db/version_set.cc:1378-1401 | The inputs and the chain of boundary files behind their largest key, without gap or duplicate, ending because the upper end moves strictly on |
| Picking.FindSmallestBoundaryFile | FreeFood/Pods/leveldb-library/db/version_set.cc:1344-1365 | The file with the smallest first key among those that start after the key with the same user key |
| Picking.BoundaryChainIsSlice | FreeFood/Pods/leveldb-library/db/version_set.cc:1370-1401 | Below level 0 the boundary files are the next files of the level, and the extended inputs end between two user keys |
| Picking.GetRange | FreeFood/Pods/leveldb-library/db/version_set.cc:1205-1227 | The least and the greatest key of all inputs |
| Picking.VersionSet.SetupOtherInputs | FreeFood/Pods/leveldb-library/db/version_set.cc:1403-1462 | The inputs of the level are the start with its boundary files, grown exactly when that pays, those of the next level are exactly the overlapping ones, also after growing; grandparents follow, and the compaction pointer of the level moves to the largest input |
| Picking.VersionSet.GrowInputs | FreeFood/Pods/leveldb-library/db/version_set.cc:1420-1448 | Takes all files of the level that overlap what all inputs cover, with their boundary files, exactly when there are inputs of the next level, these are more files, their total stays below the limit and no further file of the next level overlaps them; otherwise nothing changes |
| Picking.GrowsWithinLimit | FreeFood/Pods/leveldb-library/db/version_set.cc:1420-1448 | Inputs of the level other than the start with its boundary files are more files than that, and everything read then stays below the limit |
| Picking.VersionSet.PickCompaction | FreeFood/Pods/leveldb-library/db/version_set.cc:1270-1322 | None exactly without a trigger; by size the first file past the pointer, by seeks the file read in vain; the start is that file alone, at level 0 the closed set of files that overlap it, completed to inputs that an install needs, with the pointer moved behind them |
| Picking.VersionSet.CompactRange | FreeFood/Pods/leveldb-library/db/version_set.cc:1464-1495 | None exactly when nothing of the level overlaps the range; otherwise the start is the overlapping files, at level 0 of the least closed range and below it up to the first at which the total reaches the limit, completed to inputs that an install needs |
| LevelSearch.FindFile | FreeFood/Pods/leveldb-library/db/version_set.cc:88-106 | Binary search: the files before the result end before the key, those from it on do not |
| LevelSearch.SomeFileOverlapsRange | FreeFood/Pods/leveldb-library/db/version_set.cc:122-158 | True exactly when some file of the level overlaps the range, for disjoint sorted files by binary search |
| LevelSearch.GetOverlappingInputs | FreeFood/Pods/leveldb-library/db/version_set.cc:519-559 | The overlapping files; at level 0 those of the least range around the request that no chosen file sticks out of, in spite of the restarts |
| Install.FlushKeepsInv | FreeFood/Pods/leveldb-library/db/db_impl.cc:491-533 | A flush to level 0, or to a level at and above which nothing overlaps the file, keeps levels disjoint and newer above older |
| Install.CompactionKeepsInv | FreeFood/Pods/leveldb-library/db/db_impl.cc:860-876 | Installing the outputs of a picked compaction keeps the invariant |
| Install.MoveKeepsInv | FreeFood/Pods/leveldb-library/db/db_impl.cc:718-736 | A trivial move keeps the invariant |
| Install.MovesWhenCheapLater | FreeFood/Pods/leveldb-library/db/version_set.cc:1515-1523 | A lone file that nothing of the next level overlaps is moved exactly when, on its new level and in the next version, merging it on would read no more than the limit |
| Install.PickLevelForMemTableOutput | FreeFood/Pods/leveldb-library/db/version_set.cc:491-517 | The deepest level, at most 2, that can be reached while nothing down to it overlaps the range and no level below it overlaps by more than the limit |
| Install.HistoryKeepsInv | FreeFood/Pods/leveldb-library/db/version_set.cc:801-884 | Every version of every run of flushes, moves and compactions keeps the invariant |
| Install.EditMovesPointer | FreeFood/Pods/leveldb-library/db/version_set.cc:1456-1461 | The edit of a compaction moves the compaction pointer to where setting up the compaction has moved it |
| Versions.LevelIsDisjointSorted | FreeFood/Pods/leveldb-library/db/version_set.cc:741-753 | In a version of good shape every level from 1 on is a list of valid, disjoint and sorted files |
| VersionBuilder.Builder.Apply | FreeFood/Pods/leveldb-library/db/version_set.cc:650-693 | Moves the compaction pointers of the edit, one after the other; deletions, then additions, which take a number off the deleted ones |
| VersionBuilder.LastMoveStands | FreeFood/Pods/leveldb-library/db/version_set.cc:651-656 | The compaction pointer of a level is the last one that the edit has for it, or stays |
| VersionBuilder.Builder.SaveTo | FreeFood/Pods/leveldb-library/db/version_set.cc:695-739 | Per level exactly the kept and the added files, sorted |
| VersionBuilder.LogAndApply | FreeFood/Pods/leveldb-library/db/version_set.cc:801-871 | One builder for one edit gives the version that the edit installs, and its moves of the compaction pointers |
| VersionBuilder.Recover | FreeFood/Pods/leveldb-library/db/version_set.cc:924-1000 | One builder for all edits of a manifest gives the version that installing them one by one gives, if no number comes back to a level, and the compaction pointers after all their moves |
| ManifestReplay.WriteSnapshot | FreeFood/Pods/leveldb-library/db/version_set.cc:1088-1116 | The edit that lists every file of a version and every compaction pointer that is set |
| ManifestReplay.RecoverManifest | FreeFood/Pods/leveldb-library/db/version_set.cc:886-1011 | For every run of installs and every point at which its manifest was begun, replaying the manifest gives the version installed last and the compaction pointers as all steps of the run have left them; no number ever comes back, because numbers come from one counter |
| ManifestFile.ReadManifest | FreeFood/Pods/leveldb-library/db/version_set.cc:924-988 | Any file is refused exactly when the log reader reports something, a record is not an edit or names another comparator, or no record has a log number, a next file number or a last sequence number; otherwise the latest of each is taken |
| ManifestFile.RecoverFile | FreeFood/Pods/leveldb-library/db/version_set.cc:886-1011 | The manifest as a file of log records, cut off after any byte: version, compaction pointers, log numbers, next file number and last sequence number as the last edit that is wholly in it has left them, with every table numbered below the next file number; it fails exactly when no record is whole, or just a snapshot without numbers |
| ManifestFile.OneCount | FreeFood/Pods/leveldb-library/db/version_set.cc:924-988 | How many records are wholly in a cut file is determined by the file |
| EditRecords.EditReadsBack | FreeFood/Pods/leveldb-library/db/version_edit.cc:41-205 | An encoded edit decodes to itself in an object without compaction pointers; in one that has some they stay in front |
| EditRecords.UnknownFieldIsRefused | FreeFood/Pods/leveldb-library/db/version_edit.cc:190-192 | A record with a field of an unknown tag is refused, wherever the field comes |
| EditRecords.CutTagIsRefused | FreeFood/Pods/leveldb-library/db/version_edit.cc:196-198 | A record that ends inside a tag is refused |
| EditRecords.EditObject.EncodeTo | FreeFood/Pods/leveldb-library/db/version_edit.cc:41-85 | Appends the bytes of the edit, field by field |
| EditRecords.EditObject.DecodeFrom | FreeFood/Pods/leveldb-library/db/version_edit.cc:107-205 | No error exactly when the bytes parse as an edit, which is then in the object |
| EditRecords.EditObject.Clear | FreeFood/Pods/leveldb-library/db/version_edit.cc:26-39 | Forgets everything but the compaction pointers |
| VersionGet.FilesToSearch | FreeFood/Pods/leveldb-library/db/version_set.cc:326-372 | Level 0 newest first with every file that can hold the key; below it the one file that can |
| VersionGet.Get | FreeFood/Pods/leveldb-library/db/version_set.cc:326-421 | Reading level by level up to the first hit returns the newest visible entry of the whole version, a deletion meaning absent |
| VersionGet.LookupLands | FreeFood/Pods/leveldb-library/db/memtable.cc:100-134 | The first entry at or after the seek key decides a read of one sorted run |
| VersionGet.MemGet | FreeFood/Pods/leveldb-library/db/memtable.cc:100-134 | The newest visible entry of a memtable, or none is visible |
| VersionGet.DBGet | FreeFood/Pods/leveldb-library/db/db_impl.cc:1100-1145 | Memtable, immutable memtable and version in this order answer from all entries together |
| Merging.MergingIterator.FindSmallest | FreeFood/Pods/leveldb-library/table/merger.cc:148-161 | The child with the smallest key is the next entry of the sorted union |
| Merging.MergingIterator.FindLargest | FreeFood/Pods/leveldb-library/table/merger.cc:163-176 | The child with the largest key is the previous entry of the sorted union |
| Merging.MergingIterator.Next | FreeFood/Pods/leveldb-library/table/merger.cc:55-79 | One position on in the sorted union, whatever the direction so far |
| Merging.MergingIterator.Prev | FreeFood/Pods/leveldb-library/table/merger.cc:81-108 | One position back in the sorted union, whatever the direction so far |
| Merging.MergingIterator.Seek | FreeFood/Pods/leveldb-library/table/merger.cc:47-53 | The first entry of the sorted union at or after the target |
| Merging.MergingIterator.SeekToFirst | FreeFood/Pods/leveldb-library/table/merger.cc:31-37 | The first entry of the sorted union |
| Merging.MergingIterator.SeekToLast | FreeFood/Pods/leveldb-library/table/merger.cc:39-45 | The last entry of the sorted union |
| DBIters.ViewIsReads | FreeFood/Pods/leveldb-library/db/db_iter.cc:30-38 | The map an iterator shows is the map of all reads at its snapshot, in key order |
| StoreIteration.IteratorShowsLastWrites | FreeFood/Pods/leveldb-library/db/db_impl.cc:1147-1159 | At any time of a run whose compactions were harmless, an iterator at the latest sequence number or a live snapshot shows in key order exactly the values last written at or before it |
| DBIters.DBIter.Next | FreeFood/Pods/leveldb-library/db/db_iter.cc:141-166 | One pair on in that map, in either direction and past deleted, hidden and newer entries |
| DBIters.DBIter.Prev | FreeFood/Pods/leveldb-library/db/db_iter.cc:200-225 | One pair back in that map, or not valid before its first pair |
| DBIters.DBIter.Seek | FreeFood/Pods/leveldb-library/db/db_iter.cc:269-281 | The first pair of that map at or after the user key |
| DBIters.DBIter.SeekToFirst | FreeFood/Pods/leveldb-library/db/db_iter.cc:283-292 | The first pair of that map |
| DBIters.DBIter.SeekToLast | FreeFood/Pods/leveldb-library/db/db_iter.cc:294-299 | The last pair of that map |
| DBIters.DBIter.FindNextUserEntry | FreeFood/Pods/leveldb-library/db/db_iter.cc:168-198 | Stops at the next entry that shows in the map, or at the end |
| DBIters.DBIter.FindPrevUserEntry | FreeFood/Pods/leveldb-library/db/db_iter.cc:227-267 | Remembers the newest visible entry of the user key before, having passed all of them |
| Snapshots.SnapshotList.New | FreeFood/Pods/leveldb-library/db/snapshot.h:57-74 | A new snapshot goes to the end, so the list stays ordered |
| Snapshots.SnapshotList.Delete | FreeFood/Pods/leveldb-library/db/snapshot.h:79-89 | Takes out exactly that snapshot |
| Snapshots.SnapshotList.Oldest | FreeFood/Pods/leveldb-library/db/snapshot.h:47-50 | The first node has the least sequence number of all |
| Snapshots.SnapshotList.SmallestSnapshot | FreeFood/Pods/leveldb-library/db/db_impl.cc:890-894 | No live snapshot and no later reader reads below what a compaction takes as its smallest snapshot |
| Durability.RunKeepsInv | FreeFood/Pods/leveldb-library/db/db_impl.cc:223-566 | In every run of writes, log switches, flushes, compactions, moves, file deletions, crashes and recoveries the tables of every version that may be recovered, and the logs from its log number on, hold what was logged, every compaction having been harmless |
| Durability.RunServesReads | FreeFood/Pods/leveldb-library/db/db_impl.cc:1100-1145 | At any time of such a run a read at the latest sequence number or a live snapshot returns the last write at or before it |
| Durability.RestartLosesNothing | FreeFood/Pods/leveldb-library/db/db_impl.cc:280-489 | After a crash at any step, recovery gives a database in which every acknowledged write is there, at its place in the order of all writes |
| StoreRestart.EveryCrashRecovers | FreeFood/Pods/leveldb-library/db/db_impl.cc:280-489 | Wherever a run stops, the database can be opened again, and then every key has the value last written to a log |
| StoreRestart.SnapshotFreezesReads | FreeFood/Pods/leveldb-library/db/db_impl.cc:1166-1174 | As long as it is held, a snapshot reads every key as it was when the snapshot was taken, through writes, flushes and compactions |
| Durability.CutsAreHarmless | FreeFood/Pods/leveldb-library/db/version_set.cc:1403-1462 | A run whose compactions take inputs of the next level that end between user keys needs no further condition |
| Durability.StateIsReadable | FreeFood/Pods/leveldb-library/db/db_impl.cc:1062-1087 | The memtables are newer than the tables, which are all on disk, and sequence numbers are unique |
| StoreReads.CutBetweenUsersIsHarmless | FreeFood/Pods/leveldb-library/db/version_set.cc:1403-1462 | Inputs of the next level that end between user keys make a compaction harmless |
| LogReplay.RecoverLogFile | FreeFood/Pods/leveldb-library/db/db_impl.cc:371-489 | The tables made of one log hold its records in order; the memtable becomes a table exactly when a record has filled it, and at the end; the greatest sequence number is found |
| LogReplay.RecoverLogs | FreeFood/Pods/leveldb-library/db/db_impl.cc:309-366 | The logs from the log number on, in the order of their numbers, give exactly the writes that were not yet in tables |
| GroupCommit.BatchBuilder.BuildBatchGroup | FreeFood/Pods/leveldb-library/db/db_impl.cc:1260-1306 | The group is the longest prefix of the queue that the size and sync rules allow; its batch holds the operations in queue order |
| GroupCommit.FirstComeFirstServed | FreeFood/Pods/leveldb-library/db/db_impl.cc:1185-1258 | In every interleaving only the front of the queue leads, and finished groups followed by the queue are all writers in order of arrival |
| GroupCommit.GroupRangesAreDisjoint | FreeFood/Pods/leveldb-library/db/db_impl.cc:1203-1236 | Groups take disjoint consecutive ranges of sequence numbers in queue order, and no writer that wants a sync is committed by a leader that does not |
| GroupCommit.SnapshotSeesWholeGroups | FreeFood/Pods/leveldb-library/db/db_impl.cc:1203-1236 | A reader at the last sequence number sees exactly the entries of whole applied groups, also while a group is being inserted |
| GroupReads.ReadsAreAppliedWrites | FreeFood/Pods/leveldb-library/db/write_batch.cc:116-137 | In every interleaving a read at the last sequence number gives what a plain map holds after the operations of all applied batches, in order of arrival and within each batch in its order: a put sets its key, a deletion removes it |
| GroupCommit.LoggedAndAppliedOnce | FreeFood/Pods/leveldb-library/db/db_impl.cc:1203-1236 | The log and the memtable hold every group once and in order, and nothing is in the memtable that is not in the log |
| SkipLists.SkipList.FindGreaterOrEqual | FreeFood/Pods/leveldb-library/db/skiplist.h:260-281 | The first node at or after the key, and on every level the last node before it |
| SkipLists.SkipList.FindLessThan | FreeFood/Pods/leveldb-library/db/skiplist.h:283-302 | The last node before the key, or the head |
| SkipLists.SkipList.FindLast | FreeFood/Pods/leveldb-library/db/skiplist.h:304-322 | The last node, or the head of an empty list |
| SkipLists.SkipList.LinkLevel | FreeFood/Pods/leveldb-library/db/skiplist.h:362-367 | Two stores link the node on one more level, and every level stays sorted, linked and part of the one below after each |
| SkipLists.SkipList.Insert | FreeFood/Pods/leveldb-library/db/skiplist.h:336-368 | The new node is on all levels below its height, and nothing else changes |
| SkipLists.Iterator.Next | FreeFood/Pods/leveldb-library/db/skiplist.h:206-210 | The next node of the lowest level |
| SkipLists.Iterator.Prev | FreeFood/Pods/leveldb-library/db/skiplist.h:212-221 | The last node before the current key |
| SkipListReaders.RunKeepsInv | FreeFood/Pods/leveldb-library/db/skiplist.h:260-368 | After every single load and store of any interleaving of readers with the inserter the levels are sorted, linked and nested |
| SkipListReaders.SearchIsRightAtLastLoad | FreeFood/Pods/leveldb-library/db/skiplist.h:260-281 | A search in any interleaving returns the first node at or after its target in the list as it is at its last load |
| SkipListReaders.NothingIsMissed | FreeFood/Pods/leveldb-library/db/skiplist.h:260-281 | A node that was in the list at any time before is not passed over |
| HandleTables.MaskedBucket | FreeFood/Pods/leveldb-library/util/cache.cc:114-120 | Masking the hash with the length less one finds the bucket of the hash |
| Coding.MaskIsRemainder | FreeFood/Pods/leveldb-library/util/cache.cc:114-138 | For a power of two the mask is the remainder |
| HandleTables.HandleTable.FindPointer | FreeFood/Pods/leveldb-library/util/cache.cc:111-120 | The slot that points to the entry with the key, or the end of its bucket |
| HandleTables.HandleTable.Insert | FreeFood/Pods/leveldb-library/util/cache.cc:78-92 | The new handle takes the place of the one with its key, if there is one; the table grows exactly when it has more entries than buckets |
| HandleTables.HandleTable.Remove | FreeFood/Pods/leveldb-library/util/cache.cc:94-102 | Exactly the entry with the key is taken out |
| HandleTables.HandleTable.Resize | FreeFood/Pods/leveldb-library/util/cache.cc:122-146 | Every entry is in its bucket of the least power of two, from 4 on, that is not below their number; none is lost or repeated |
| CircularLists.Unlink | FreeFood/Pods/leveldb-library/util/cache.cc:239-242 | Linking the neighbours of a node takes it out of the circle |
| CircularLists.Append | FreeFood/Pods/leveldb-library/util/cache.cc:244-250 | A node linked in before the head becomes the last of the circle |
| LruCaches.LRUCache.Ref | FreeFood/Pods/leveldb-library/util/cache.cc:217-223 | A client gets a reference; an entry nobody used moves to the list of used ones |
| LruCaches.LRUCache.Unref | FreeFood/Pods/leveldb-library/util/cache.cc:225-237 | The last reference deletes the handle, once and with nobody holding it; the last one of a client makes a cached entry the newest unused one |
| LruCaches.LRUCache.Lookup | FreeFood/Pods/leveldb-library/util/cache.cc:252-259 | The cached entry with the key and a reference to it, off the list of unused ones, or no cached entry has the key; nothing else changes |
| LruCaches.LRUCache.Release | FreeFood/Pods/leveldb-library/util/cache.cc:261-264 | One reference of a client is given back; the handle is deleted exactly when it was the last, and becomes the newest unused one when the cache alone is left |
| LruCaches.LRUCache.Insert | FreeFood/Pods/leveldb-library/util/cache.cc:266-303 | The caller holds the new entry, no other one is cached under its key, clients keep what they hold, and the charges fit or no unused entry is left; every other entry stays as it is, but for the oldest unused ones, and of those no more go than it takes for the rest to fit |
| LruCaches.LRUCache.Evict | FreeFood/Pods/leveldb-library/util/cache.cc:293-300 | Unused entries go, oldest first, and no more of them than it takes for the rest to fit |
| LruCaches.LRUCache.FinishErase | FreeFood/Pods/leveldb-library/util/cache.cc:305-316 | The entry is not cached any more, its charge is off the usage, clients keep it |
| LruCaches.LRUCache.Erase | FreeFood/Pods/leveldb-library/util/cache.cc:318-321 | No cached entry has the key, clients keep what they hold, and every other entry stays as and where it is |
| LruCaches.LRUCache.Prune | FreeFood/Pods/leveldb-library/util/cache.cc:323-333 | Exactly the unused entries go, and what clients hold stays |
| LogFormat.Writer.AddRecord | FreeFood/Pods/leveldb-library/db/log_writer.cc:34-80 | Appends the fragments of the record, with zeroes where less than a header fits |
| LogFormat.Writer.EmitPhysicalRecord | FreeFood/Pods/leveldb-library/db/log_writer.cc:82-108 | Appends masked checksum, length, type and payload |
| LogReader.Reader.ReadPhysicalRecord | FreeFood/Pods/leveldb-library/db/log_reader.cc:189-271 | The next physical record, block by block, with dropped bytes reported |
| LogReader.Reader.ReadRecord | FreeFood/Pods/leveldb-library/db/log_reader.cc:56-174 | Puts fragments together, with the reports for missing and unexpected ones |
| LogRoundTrip.CutLogReadsBack | FreeFood/Pods/leveldb-library/db/log_reader.cc:56-271 | For any records, checksum and cut: reading gives the records wholly before the cut and no report |
| LogRoundTrip.WriteAndReadBack | FreeFood/Pods/leveldb-library/db/log_writer.cc:34-108 | Writer and reader together: a log cut off at any byte reads as the records wholly inside, in order, without a report |
| LogDamage.NothingDamagedIsReturned | FreeFood/Pods/leveldb-library/db/log_reader.cc:189-271 | Whatever a file holds, every record read from it is there in whole fragments as the writer emits them, with their checksums and in the right order of kinds |
| LogDamage.NothingIsLostSilently | FreeFood/Pods/leveldb-library/db/log_reader.cc:56-174 | When nothing is reported on the way to a record, the record is all the data that was read |
| LogDamage.PhysicalIsSound | FreeFood/Pods/leveldb-library/db/log_reader.cc:189-271 | A physical record is refused without a report only for the zero header of preallocated space; otherwise for a wrong checksum or a length that runs over the block |
| LogDamage.FragmentsFillBlocks | FreeFood/Pods/leveldb-library/db/log_writer.cc:34-80 | Every fragment of a record but the last one ends where a block does, and less than a header is left out before each |
| Checksums.MaskRotates | FreeFood/Pods/leveldb-library/util/crc32c.h:24-40 | Bit by bit a stored checksum, less the constant, is the checksum turned right by 15 |
| Checksums.UnmaskMask | FreeFood/Pods/leveldb-library/util/crc32c.h:24-40 | Unmasking a masked checksum gives it back |
| Coding.VarintReadsBack | FreeFood/Pods/leveldb-library/util/coding.cc:112-157 | A varint reads back in any width that holds it, and the reader stops behind its last byte |
| VarintLimits.VarintReadIff | FreeFood/Pods/leveldb-library/util/coding.cc:112-157 | A varint is read exactly when it ends before its septets are past the width, as what the septets stand for modulo the width |
| Coding.EndlessIsRefused | FreeFood/Pods/leveldb-library/util/coding.cc:112-157 | Bytes without a last byte of a varint are refused |
| Coding.PutVarint64 | FreeFood/Pods/leveldb-library/util/coding.cc:81-96 | Appends the septets, lowest first |
| Coding.PutVarint32 | FreeFood/Pods/leveldb-library/util/coding.cc:47-79 | The unrolled form appends the same bytes |
| Coding.GetVarint | FreeFood/Pods/leveldb-library/util/coding.cc:112-157 | What the loop reads, with the same limit on the shift |
| Coding.Fixed32RoundTrip | FreeFood/Pods/leveldb-library/util/coding.cc:9-39 | A fixed 32-bit number reads back |
| Coding.Fixed64RoundTrip | FreeFood/Pods/leveldb-library/util/coding.cc:20-45 | A fixed 64-bit number reads back |
| BlockFormat.BlockBuilder.Add | FreeFood/Pods/leveldb-library/table/block_builder.cc:72-106 | The entry with the prefix it shares with the key before it, or a restart point when the interval is full |
| BlockFormat.BlockBuilder.Finish | FreeFood/Pods/leveldb-library/table/block_builder.cc:62-70 | The entries, the offsets of the restart points and their number |
| BlockReader.DecodeEntry | FreeFood/Pods/leveldb-library/table/block.cc:54-73 | The fast path for single bytes reads what the varint path reads, and both refuse an entry that is too short |
| BlockReader.ShortEntryIsRefused | FreeFood/Pods/leveldb-library/table/block.cc:54-73 | For lengths that 32 bits can add up, an entry is refused exactly when the block ends before its key and value do |
| BlockIterators.SearchRestarts | FreeFood/Pods/leveldb-library/table/block.cc:163-190 | Binary search for the last restart point with a key before the target |
| BlockIterators.BlockIter.Seek | FreeFood/Pods/leveldb-library/table/block.cc:163-201 | The first entry with a key at or after the target |
| BlockIterators.BlockIter.Next | FreeFood/Pods/leveldb-library/table/block.cc:137-140 | One entry on |
| BlockIterators.BlockIter.Prev | FreeFood/Pods/leveldb-library/table/block.cc:142-161 | One entry back, through a restart point before it |
| BlockIterators.BlockIter.SeekToFirst | FreeFood/Pods/leveldb-library/table/block.cc:203-206 | The first entry |
| BlockIterators.BlockIter.SeekToLast | FreeFood/Pods/leveldb-library/table/block.cc:208-213 | The last entry |
| BlockIterators.BlockIter.ParseNextKey | FreeFood/Pods/leveldb-library/table/block.cc:224-251 | Key and value of the entry behind the current one, or the end |
| BlockRoundTrip.BuildAndRead | FreeFood/Pods/leveldb-library/table/block.cc:142-251 | A block that was built from a list gives that list forward and backward, and a seek in it the first key that is large enough |
| Bloom.AddKey | FreeFood/Pods/leveldb-library/util/bloom.cc:43-52 | Sets exactly the bits that the probes of the key fall on |
| Bloom.DeltaRotates | FreeFood/Pods/leveldb-library/util/bloom.cc:46 | Bit by bit the step between probes is the hash turned right by 17 |
| Bloom.ProbesAreEquallySpaced | FreeFood/Pods/leveldb-library/util/bloom.cc:46-51 | The probes of a key go on in equal steps modulo 2^32 |
| Bloom.BloomFilterPolicy.CreateFilter | FreeFood/Pods/leveldb-library/util/bloom.cc:28-54 | A bit is set exactly when some probe of some key falls on it, so every key matches |
| Bloom.BloomFilterPolicy.KeyMayMatch | FreeFood/Pods/leveldb-library/util/bloom.cc:56-80 | True exactly when every probed bit is set, or the number of probes is reserved |
| FilterBlock.ReaderFindsFilter | FreeFood/Pods/leveldb-library/table/filter_block.cc:77-104 | On a written block the reader answers with the filter of the two kilobytes that the offset lies in |
| FilterBlock.FilterBlockBuilder.StartBlock | FreeFood/Pods/leveldb-library/table/filter_block.cc:21-27 | Closes filters up to the one of the block |
| FilterBlock.FilterBlockBuilder.GenerateFilter | FreeFood/Pods/leveldb-library/table/filter_block.cc:51-75 | One filter of exactly the keys since the last one, cut out of the flattened string again |
| FilterBlock.FilterBlockBuilder.Finish | FreeFood/Pods/leveldb-library/table/filter_block.cc:35-49 | Every key that was added may match at every offset of its two kilobytes, and the reader answers as the filters do |
| FilterBlock.FilterBlockReader.KeyMayMatch | FreeFood/Pods/leveldb-library/table/filter_block.cc:90-104 | The answer of the filter at the offset; errors count as matches |
| Separators.FindShortestSeparator | FreeFood/Pods/leveldb-library/util/comparator.cc:29-50 | The key itself or a key strictly between it and the limit, not longer; the latter exactly when a byte fits between the first two that differ |
| Separators.FindShortSuccessor | FreeFood/Pods/leveldb-library/util/comparator.cc:52-64 | The key itself, exactly when it is a run of 0xff, or a later key that is not longer |
| Separators.FindInternalSeparator | FreeFood/Pods/leveldb-library/db/dbformat.cc:69-86 | The key itself or the first internal key of a shorter user key strictly between the two user keys |
| Separators.FindInternalSuccessor | FreeFood/Pods/leveldb-library/db/dbformat.cc:88-101 | The key itself or the first internal key of a shorter, later user key |
| Division.StillDivided | FreeFood/Pods/leveldb-library/table/table_builder.cc:94-108 | An entry behind the last one leaves every index key at or after its block and before what follows |
| Division.DividedMore | FreeFood/Pods/leveldb-library/table/table_builder.cc:102-108 | An index key at or after the last key divides the last block from what follows |
| TableBuilders.TableBuilder.Add | FreeFood/Pods/leveldb-library/table/table_builder.cc:94-123 | One more entry, with the index entry of a block that waited for it; the open block goes to the file with this entry exactly when it has reached the block size, and stays open otherwise |
| TableBuilders.TableBuilder.Flush | FreeFood/Pods/leveldb-library/table/table_builder.cc:125-139 | The open block is on file, the entries are the same |
| TableBuilders.TableBuilder.WriteBlock | FreeFood/Pods/leveldb-library/table/table_builder.cc:141-175 | The contents with their trailer at the end of the file, and the handle to them |
| TableBuilders.TableBuilder.Finish | FreeFood/Pods/leveldb-library/table/table_builder.cc:198-253 | The file opens to an index that separates the blocks, blocks that hold exactly what was added, and filters that admit every key of every block at its offset |
| TableFormat.BlockReadsBack | FreeFood/Pods/leveldb-library/table/format.cc:64-139 | A block reads back from where it was appended, with or without checking its checksum |
| TableFormat.VerifiedBlockIsWritten | FreeFood/Pods/leveldb-library/table/format.cc:64-139 | With checksums verified, contents are read exactly where the file holds them with the trailer that the builder writes: nothing damaged is read |
| TableFormat.FooterIsRecognized | FreeFood/Pods/leveldb-library/table/format.cc:42-62 | Nothing that does not end with the magic number is taken for a footer |
| TableFormat.FooterReadsBack | FreeFood/Pods/leveldb-library/table/format.cc:31-62 | The handles of a footer read back |
| TableFormat.HandleReadsBack | FreeFood/Pods/leveldb-library/table/format.cc:15-29 | A handle reads back |
| Tables.TwoLevelSeek | FreeFood/Pods/leveldb-library/table/two_level_iterator.cc:82-87 | Seeking in the index and then in the block it names is seeking in the whole table |
| Tables.TwoLevelIterator.Seek | FreeFood/Pods/leveldb-library/table/two_level_iterator.cc:82-87 | The first entry of the table at or after the target |
| Tables.TwoLevelIterator.Next | FreeFood/Pods/leveldb-library/table/two_level_iterator.cc:103-107 | One entry on in the whole table, over the ends of blocks and empty blocks |
| Tables.TwoLevelIterator.Prev | FreeFood/Pods/leveldb-library/table/two_level_iterator.cc:109-113 | One entry back in the whole table |
| Tables.TwoLevelIterator.SeekToFirst | FreeFood/Pods/leveldb-library/table/two_level_iterator.cc:89-94 | The first entry of the table |
| Tables.TwoLevelIterator.SeekToLast | FreeFood/Pods/leveldb-library/table/two_level_iterator.cc:96-101 | The last entry of the table |
| Tables.TwoLevelIterator.InitDataBlock | FreeFood/Pods/leveldb-library/table/two_level_iterator.cc:146-161 | The data iterator is over the block that the index iterator stands at, kept when it is open already |
| TableGet.InternalGet | FreeFood/Pods/leveldb-library/table/table.cc:216-244 | Hands on nothing but the first entry at or after the key, and that one for certain if it is of the key's user, with or without filters |
| TableGet.NextIsOther | FreeFood/Pods/leveldb-library/db/dbformat.cc:69-86 | When a block has nothing at or after the key, what follows in the table is of another user key, because the separator keeps user keys apart |
| TableRoundTrip.OpenAndGet | FreeFood/Pods/leveldb-library/table/table.cc:38-134 | Opening a file and looking a key up, through footer, index, metaindex and filters, answers from the entries that were added |
| TableRoundTrip.OpenAndScan | FreeFood/Pods/leveldb-library/table/table.cc:210-214 | Opening a file, seeking and going on gives exactly the added entries from the target on |
| TableRoundTrip.FinishAndRead | FreeFood/Pods/leveldb-library/table/table_builder.cc:198-253 | Builder and readers together, for table files below four gigabytes |
| ProtoFields.FieldIter.Next | FreeFood/Pods/nanopb/pb_common.c:20-76 | One field on, or back to the first one |
| ProtoFields.FieldIter.Find | FreeFood/Pods/nanopb/pb_common.c:78-95 | Finds a tag exactly when some field has it, the nearest one on the way around; the terminator of an empty descriptor passes for tag zero |
| ProtoEncode.EncodeSubmessage | FreeFood/Pods/nanopb/pb_encode.c:717-765 | Sizing and writing agree: the message with its length is written, or refused for the same reasons as any message; a changed size never happens |
| ProtoEncode.EncodeArray | FreeFood/Pods/nanopb/pb_encode.c:147-236 | A packed array with its length, or one record for every item |
| ProtoEncode.EncodeVarint | FreeFood/Pods/nanopb/pb_encode.c:608-628 | Writes the septets, lowest first |
| ProtoEncode.Encode | FreeFood/Pods/nanopb/pb_encode.c:528-550 | Succeeds exactly when nothing is refused and the bytes fit, and then has written them, or counted them on a sizing stream |
| ProtoEncode.GetEncodedSize | FreeFood/Pods/nanopb/pb_encode.c:567-576 | The number of bytes that encoding writes |
| ProtoReader.DecodeVarint32 | FreeFood/Pods/nanopb/pb_decode.c:187-252 | 32-bit varints with longer sign extensions, as the code accepts them |
| ProtoReader.DecodeVarint | FreeFood/Pods/nanopb/pb_decode.c:255-275 | 64-bit varints |
| ProtoReader.MakeStringSubstream | FreeFood/Pods/nanopb/pb_decode.c:372-385 | The substream has exactly the bytes behind the length, the stream keeps the rest |
| ProtoReader.DecodeStaticField | FreeFood/Pods/nanopb/pb_decode.c:406-480 | One field by its rule: required, optional, arm of a oneof, item or packed array |
| ProtoReader.CheckRequired | FreeFood/Pods/nanopb/pb_decode.c:1048-1069 | The bitmap test, whole words and then bits, holds exactly when every counted field was seen |
| ProtoReader.CountRequired | FreeFood/Pods/nanopb/pb_decode.c:1027-1046 | The number of required fields, none for an empty descriptor |
| ProtoReader.DecodeNoInit | FreeFood/Pods/nanopb/pb_decode.c:925-1073 | The loop over records decodes what the recursive form decodes, with the test for required fields at the end |
| ProtoReader.DecodeMessage | FreeFood/Pods/nanopb/pb_decode.c:1075-1087 | Decoding into a message set to its defaults |
| ProtoRoundTrip.DecodeInvertsEncode | FreeFood/Pods/nanopb/pb_decode.c:925-1087 | Decoding an encoded message gives it back, for every descriptor of distinct tags and every message that the format and the buffers can carry |
| ProtoForward.UnknownField | FreeFood/Pods/nanopb/pb_decode.c:321-336 | A field that the descriptor does not know is passed over as a whole, whatever its kind and value |
| ProtoForward.NewFieldsAreSkipped | FreeFood/Pods/nanopb/pb_decode.c:975-988 | A message of a type with additional fields decodes to the message without them |
| ProtoForward.ArmIsSet | FreeFood/Pods/nanopb/pb_decode.c:466-474 | An arm of a oneof that is read is set, the other arms are not, everything else is as before |
| ProtoForward.LastArmStands | FreeFood/Pods/nanopb/pb_decode.c:466-474 | Of two arms of a oneof the one that comes last stands, alone |
| ProtoForward.LastValueStands | FreeFood/Pods/nanopb/pb_decode.c:416-422 | A field that comes again takes the later value |
| ProtoForward.EmptyRecordMerges | FreeFood/Pods/nanopb/pb_decode.c:416-422 | A further record of a submessage goes on from the fields that are there |
| ProtoAccepts.UnpackedArrayAppends | FreeFood/Pods/nanopb/pb_decode.c:424-464 | An array of any kind may come as one record per item; it is refused exactly when it has more items than its field |
| ProtoAccepts.PackedArrayAppends | FreeFood/Pods/nanopb/pb_decode.c:424-464 | An array of numbers may come in any number of packed records, with the same limit |
| ProtoAccepts.UnsignedReadIff | FreeFood/Pods/nanopb/pb_decode.c:1366-1388 | An unsigned number is read exactly when it fits its field, and never cut |
| ProtoAccepts.SignedReadIff | FreeFood/Pods/nanopb/pb_decode.c:1329-1364 | A signed number of up to 32 bits is cut to 32 bits and then read exactly when it fits its field |
| ProtoAccepts.ZigZagReadIff | FreeFood/Pods/nanopb/pb_decode.c:1390-1412 | A zigzag number is read exactly when it fits its field |
| ProtoAccepts.SignExtendedReads | FreeFood/Pods/nanopb/pb_decode.c:187-247 | A negative 32-bit number extended to 64 bits reads as its lower half |
| ProtoAccepts.ZeroEndsMessage | FreeFood/Pods/nanopb/pb_decode.c:298-319 | A zero ends a message, whatever follows |
| ProtoRoundTrip.LeftOutField | FreeFood/Pods/nanopb/pb_decode.c:1012-1069 | A message without one of its fields is refused exactly when the field is one of the first 64 required ones |
| ProtoRoundTrip.RequiredCheck | FreeFood/Pods/nanopb/pb_decode.c:1012-1069 | A message that parses is accepted exactly when it has a record for every one of the first 64 required fields, also with more required fields than that |
| ProtoRoundTrip.StringReadsBackIff | FreeFood/Pods/nanopb/pb_encode.c:875-899 | A string comes back exactly when it has no zero before its end and is shorter than its buffer; one that fills its buffer is encoded and then refused on decoding |

## Left out

What contracts above do not say:

- TableBuilders.TableBuilder.Finish: promises nothing for files of 2^64 bytes or more, where handles wrap around, and nothing about filters of 4 gigabytes or more, where offsets do.
- TableRoundTrip.FinishAndRead: is about files below 4 gigabytes, which spares a condition on the size of the filters.
- BlockRoundTrip.BuildAndRead: is about blocks that 32-bit offsets can address; the builder does not notice a longer one.
- SkipLists.SkipList.Insert: takes the height as a parameter in place of random numbers.
- LruCaches.LRUCache.Insert: is about one shard; choosing the shard by the top bits of the hash is left out.
- Durability.RunServesReads: needs every compaction so far to be harmless, see Findings.
- Durability.RestartLosesNothing: needs the same.
- StoreIteration.IteratorShowsLastWrites: needs the same.
- StoreRestart.EveryCrashRecovers: needs the same.
- StoreRestart.SnapshotFreezesReads: needs the same.
- ProtoRoundTrip.DecodeInvertsEncode: asks for messages that the format and the buffers can carry (`AllFaithful`): strings and arrays that fit, one arm of every oneof, lengths of 32 bits.

Idealisations:

- User keys of the store are real numbers: they are ordered by an arbitrary comparator on strings, and every countable order embeds in the reals. Tables, blocks and filters have byte strings as keys, tables under the bytewise comparator.
- The hash of keys and the checksum are arbitrary functions. Table sizes, memtable sizes and encoded lengths are parameters.
- File appends are durable at once; losing unsynced bytes is not modelled, except where a log or manifest is cut off at any byte.
- Threads take turns between steps (sequential consistency); the memory orders of the skip list's loads and stores are not modelled.
- Cache handles, skip list nodes and heap cells of the hash table are numbers that stand for addresses. Allocation and freeing are not modelled beyond the deleter calls of the cache.
- A nanopb message is a value that matches its descriptor; the destination of a decoding is the returned value, and the write of a terminator's bool goes nowhere. Stream positions are unbounded; pb_size_t has 32 bits, as the build settings say.
- Levels have the source's number, 7, and the constants of the log, block, filter and group commit code are the source's. Options such as the expansion limit, the block size and the write buffer are parameters.

Not modelled:

- Compaction scores, seek statistics and read sampling: PickCompaction takes what triggers it as a parameter.
- CompactMemTable running in the middle of DoCompactionWork, manual compactions that are split, and background errors.
- Corrupt files beyond what log and block checksums refuse: paranoid checks, error statuses of iterators, repair, resynchronising a log reader at an initial offset, missing table files.
- reuse_logs, the descriptor's CURRENT file, file names and locks, DestroyDB, properties and approximate sizes.
- Snappy, the block cache between table and file, the table cache, memory-mapped files.
- The iterators of a level's files and of the memtable, as far as they are adaptors of the two-level iterator and of the skip list.
- WriteBatch's byte layout, and the memtable's encoding of entries in its arena.
- nanopb's callbacks, extensions, pointer fields with malloc, fixed-count arrays, implicit presence of proto3, default values of fields, delimited messages.
- The application itself, its other libraries, and the platform layer.
