# Storage engine model

A Dafny model of the storage engine of this repository: the vendored LevelDB
(contrib/leveldb), its Snappy compressor (contrib/leveldb/snappy), and the posting
list intersection of the search engine's indexer (projects/indexer). It follows the
code as it is written; where the code and its comments disagree, the code is
followed. `dafny verify dfyconfig.toml` checks the whole project.

## Modules

- The store. `DbFormat` says what a set of versioned entries means to a reader at a
  snapshot (`Lookup`, the newest entry at or below the snapshot). `VersionFiles`,
  `VersionGet`, `VersionBuilder`, `CompactionInputs`, `CompactionWork` follow
  version_set.cc and the compaction loop; `CompactionRules`, `CompactionStep`,
  `CompactionPlacement`, `CompactionDeletions`, `FlushStep`, `StoreEdits` say what
  flushes, compactions and moves keep, and `OutputCuts` where output
  files end. `LsmStore` puts them together as one object with the invariant `VersionOk`,
  `MergedInput` and `BackgroundWork` run a compaction from the choice
  of its inputs to the installed version, and `BoundaryExamples` holds the two
  counterexamples described below.
- Reading. `MergingIterator` and `DbIterator` are the cursors of merger.cc and
  db_iter.cc; `StoreIterator` builds them over a store.
- Logging. `LogFormat`, `LogWriter`, `LogReader`, `LogRoundTrip`, `LogDamage` work on bytes.
  `LogReplay` and the six `Durability` modules are a state machine of logs, manifest
  and table files with crashes at any step; `GroupCommit` and `GroupProgress`
  are one of queued writers. `WriteBatches`, `ManifestFormat`, `VersionEdits`, `ManifestRecovery` are the records;
  `ManifestLog` runs the store, its manifest and recovery together.
- Snappy. `SnappyFormat` gives the text a stream of items stands for; `SnappyEmit`,
  `SnappyCompress`, `SnappyTable`, `SnappyWriter`, `SnappyDecompress` are the two
  directions over arrays, `SnappyRoundTrip` the whole buffers; `SnappyGreedy` says which
  matches are taken and `SnappySizes` how small the output gets.
- Structures. `SkipLists`, `BlockFormat`, `BlockIterator`, `KeyOrder`, `TableFormat`,
  `TableBuilding`, `TableBytes` (tables written as bytes and looked up in),
  `TwoLevelIterators`, `BloomFilter`, `FilterBlock`, `HandleTables`, `LruCache`,
  `SnapshotLists`, `PostingLists`. `Bytes`, `Varint`, `Options` are shared.

## What the proofs found

- Compaction inputs at level 1 and deeper are not extended to neighbouring files that
  share a boundary user key (contrib/leveldb/db/version_set.cc:1257-1273, 1297-1340),
  although an output may end in the middle of a user key
  (contrib/leveldb/db/db_impl.cc:966-972). On the input level this can put a newer
  entry below an older one; on the output level it can drop a deletion whose older
  value stays behind. `BoundaryExamples` has an instance of each, with the flushes and the
  compaction that lead to it and the reads before and after. The exact conditions are `CompactionPlacement.PlacementSafe` and
  `CompactionDeletions.NeighboursSafe` (proved equivalent to
  `CompactionRules.DeletionsSafe`); both speak of the files that go on with a user key
  at which an input ends. A guard that can be checked before the compaction and suffices
  for both is `BoundaryClosed` on the two levels of the inputs. The runs of `Durability`
  take the exact conditions as the guard of a compaction step, because the code has none.
- A builder that is given an add, a delete and a second add of one file number brings
  the first file back (`VersionBuilder.ReAddedNumberRevivesOldFile`, and with the builder
  itself `RevivedByBuilder`); with the same smallest key it also loses the second file. For
  every list of edits, one builder saved once equals one version per edit if and only if
  every file that is gone has a number that stays deleted and every file that found its
  place taken is gone (`BatchEqualsOneByOneExactly`).
- `VersionEdit::Clear` keeps the compaction pointers. For every edit and every list of
  stale pointers, what is read back is the edit with the stale pointers in front, so it is
  unchanged if and only if there are none (`VersionEdits.StalePointersStay`).
- The log reader returns the type byte of a record in the same number space as its own
  marks for the end of the file and for a bad record
  (contrib/leveldb/db/log_reader.h:77-86, log_reader.cc:223-262). A record of type 5 with a
  valid checksum therefore ends the log silently, and one of type 6 outside a fragmented
  record is passed over without a report (`LogReader.UnknownType`). For every file, reading stops before the end if and only if it meets a valid
  record of type 5 with bytes behind it (`LogReader.ReadingEndsEarlyExactly`;
  `LogRoundTrip.MarkedRecords` has an instance). It reports as much as a reader that keeps
  the two apart if and only if it meets neither (`LogReader.MarksGoUnreportedExactly`).
  The writer never writes such types.
- A literal that announces 2^32 bytes has length 0 in the decompressor's 32-bit
  arithmetic (contrib/leveldb/snappy/snappy.cc:747-748), and the model keeps that.
- A point lookup in a table is exact for the key's own user key only
  (`TableFormat.InternalGet`): a seek that falls between a block's last key and its
  index key finds nothing, and the separators make sure that this is harmless.
- `VersionSet::Recover` sets the next file number after it has marked numbers as used
  (contrib/leveldb/db/version_set.cc:991-1002). This loses nothing, because recovery of
  the logs marks their numbers again.
- The equal-key branch of the merger's direction switch and the exhausted branch of
  `DBIter::Next` are never taken under the invariants.

## Model

| member | source | states |
|---|---|---|
| LsmStore.Store.constructor | contrib/leveldb/db/db_impl.cc:116-146 | a new store is valid and empty |
| LsmStore.Store.GetSnapshot | contrib/leveldb/db/db_impl.cc:1143-1146 | the snapshot is the last published sequence number and joins the live ones in order |
| LsmStore.Store.ReleaseSnapshot | contrib/leveldb/db/db_impl.cc:1148-1151 | exactly one snapshot goes, and the sequence number compactions must serve never goes back |
| LsmStore.Store.Get | contrib/leveldb/db/db_impl.cc:1077-1122 | a read through memtable, immutable memtable and tables, stopping at the first hit, returns the newest value at the snapshot over all entries of the store, or nothing when that is a deletion |
| LsmStore.Store.Write | contrib/leveldb/db/db_impl.cc:1162-1233 | a batch leaves every earlier snapshot unchanged, and the new last sequence number sees the whole batch applied in order |
| LsmStore.Store.AddEntry | contrib/leveldb/db/memtable.cc:82-106 | one entry under the next sequence number, and the store stays valid |
| LsmStore.Store.SwitchMemTable | contrib/leveldb/db/db_impl.cc:1286-1347 | the full memtable becomes the immutable one; no entry is lost or gained |
| LsmStore.Store.LogAndApply | contrib/leveldb/db/version_set.cc:811-894 | for any edit, every level of the new current version is the old one with the edit applied; in strict file order when the numbers it adds are fresh |
| LsmStore.Store.CompactMemTable | contrib/leveldb/db/db_impl.cc:503-534 | a flush keeps the store valid and its entries the same; exactly the one table of the memtable is added, under the next number, on the level it may sink to, and none for an empty memtable |
| LsmStore.Store.RunCompaction | contrib/leveldb/db/db_impl.cc:855-1014 | the installed version has exactly the survivors one level down, cut and numbered as they have to be; it keeps the version invariant if and only if its placement is safe, and what every live snapshot reads if and only if no file that continues an input brings a deleted value back; boundary-closed inputs suffice for both |
| LsmStore.Store.CompactAndInstall | contrib/leveldb/db/db_impl.cc:855-1014 | the installed version is the old one without the inputs and with exactly their survivors one level down, in files cut where they have to be and numbered one after the other |
| LsmStore.Store.InsertInto | contrib/leveldb/db/write_batch.cc:111-134 | the entries of a batch, numbered from the next sequence number on, join the store |
| LsmStore.Store.TrivialMove | contrib/leveldb/db/db_impl.cc:686-693 | the version is the old one with the file one level down; all entries are kept, and the invariant if and only if the file is boundary-closed in its level |
| BackgroundWork.Compact | contrib/leveldb/db/db_impl.cc:655-738 | the inputs are completed; a single one that meets nothing below and few grandparents is moved unless the compaction is manual, otherwise exactly the survivors are written, cut and numbered as they have to be; the compaction pointer is the largest input key; valid afterwards exactly under the two boundary conditions |
| BackgroundWork.SizeCompaction | contrib/leveldb/db/db_impl.cc:655-738 | the compaction of the first file behind the compaction pointer, on level 0 with all it overlaps; the new pointer is where the next one goes on; with boundary-closed inputs the store stays valid and every live snapshot the same |
| BackgroundWork.ManualCompaction | contrib/leveldb/db/db_impl.cc:655-738 | the compaction of the files that meet the range, deeper than level 0 as many as the size limit lets through; nothing happens exactly when no file meets it |
| MergedInput.MergeInputs | contrib/leveldb/db/version_set.cc:1210-1241 | the merging iterator over one child per level-0 file and one per other level yields exactly the entries of the input files, in key order |
| MergedInput.Drain | contrib/leveldb/db/db_impl.cc:877-884 | going through a merging iterator yields the sorted union of its children |
| MergedInput.MergeAllIsUnion | contrib/leveldb/db/version_set.cc:1210-1241 | sorted lists without common keys have a sorted union |
| MergedInput.InputsMergeable | contrib/leveldb/db/version_set.cc:1210-1241 | no two children of a compaction have a key in common, because the version invariant keeps levels and level-0 files apart |
| CompactionRules.MeaningPreservedExactly | contrib/leveldb/db/db_impl.cc:923-937 | rule (A) and the obsolete-deletion rule change nothing a live reader sees if and only if the dropped deletions are safe |
| CompactionRules.LookupPreserved | contrib/leveldb/db/db_impl.cc:923-937 | sufficiency: one user key and one snapshot at or above the smallest one |
| CompactionWork.HiddenByPredecessor | contrib/leveldb/db/db_impl.cc:914-925 | an entry is hidden from all live readers if and only if its predecessor in key order has the same user key and a sequence number at or below the smallest snapshot |
| CompactionWork.Compaction.constructor | contrib/leveldb/db/version_set.cc:1399-1409 | the cursors start before every user key |
| CompactionWork.Compaction.IsBaseLevelForKey | contrib/leveldb/db/version_set.cc:1434-1453 | with cursors that only move forward over an ascending key run, the answer is exactly whether no deeper file covers the user key |
| CompactionWork.Compaction.ShouldStopBefore | contrib/leveldb/db/version_set.cc:1455-1475 | the answer is whether the grandparent bytes passed since the last cut exceed the limit, and the cursor ends at the first grandparent not before the key |
| CompactionWork.CompactionState.FinishCompactionOutputFile | contrib/leveldb/db/db_impl.cc:782-831 | the open output becomes the next file, with its number, size and key range, and the outputs are still cut where they have to be |
| CompactionWork.CompactionState.AddEntry | contrib/leveldb/db/db_impl.cc:951-973 | an added entry is held in order by the outputs, and the output is closed exactly when it is full |
| CompactionWork.ShouldDrop | contrib/leveldb/db/db_impl.cc:923-937 | an entry is dropped if and only if a newer one hides it from every live reader or it is an obsolete deletion |
| CompactionWork.CompactEntry | contrib/leveldb/db/db_impl.cc:897-973 | each input entry is kept exactly if it survives; the outputs so far are cut at exactly the stops and the full tables |
| CompactionWork.DoCompactionWork | contrib/leveldb/db/db_impl.cc:855-1014 | the outputs are valid, sorted and disjoint, hold exactly the input entries that survive the drop rules, and are cut where they have to be and nowhere else |
| CompactionWork.StopHere | contrib/leveldb/db/db_impl.cc:897-904 | the open output is closed before a key exactly when too many bytes of grandparents have been passed since the last such key |
| CompactionWork.KeyTracked | contrib/leveldb/db/version_set.cc:1455-1475 | the cursor and the sum of the running compaction are the grandparents passed and their bytes since the last stop, in terms of the input alone |
| OutputCuts.CutsAreDetermined | contrib/leveldb/db/db_impl.cc:897-973 | there is one way to cut given survivors: no output spans a key at which the passed grandparents exceed the limit or has a full proper prefix, and each but the last is full or ends at such a key |
| OutputCuts.StopsAreCuts | contrib/leveldb/db/version_set.cc:1455-1475 | two survivors with such a key between them are never in one output |
| OutputCuts.OneOutput | contrib/leveldb/db/db_impl.cc:897-973 | without grandparents, survivors of which no proper prefix is full make up one output, and no survivors none |
| CompactionStep.CompactionKeepsMeaning | contrib/leveldb/db/db_impl.cc:834-853 | installing the outputs keeps what live readers see if and only if the dropped deletions are safe given everything that stays outside |
| CompactionStep.OutsideIsNotOlder | contrib/leveldb/db/version_set.cc:1297-1340 | with boundary-closed inputs nothing outside the compaction, down to the output level, is older than an input entry of its user key |
| CompactionStep.ClosedInputsAreSafe | contrib/leveldb/db/version_set.cc:1297-1340 | boundary-closed inputs make all dropped deletions safe |
| CompactionPlacement.JobKeepsVersionOk | contrib/leveldb/db/db_impl.cc:834-853 | the version invariant survives moving entries down if and only if every stayer of the level is newer than what moves below it |
| CompactionPlacement.PlacementIsExact | contrib/leveldb/db/db_impl.cc:923-937 | for a compaction that is the case if and only if, wherever a neighbour continues a user key of the inputs, that key's newest input entry is an obsolete deletion |
| CompactionPlacement.CompactionKeepsVersionOk | contrib/leveldb/db/db_impl.cc:834-853 | a compaction keeps the version invariant if and only if its placement is safe |
| CompactionPlacement.TrivialMoveKeepsVersionOk | contrib/leveldb/db/db_impl.cc:686-693 | a trivial move keeps it if and only if the moved file is boundary-closed |
| CompactionDeletions.DeletionsAreExact | contrib/leveldb/db/version_set.cc:1297-1340 | dropping deletions is safe if and only if, wherever a file goes on with the user key at which an input of its level ends, and the newest input entry of that key is an obsolete deletion, the file's first entry is a deletion too or is hidden from outside |
| CompactionDeletions.OlderIsContinued | contrib/leveldb/db/version_set.cc:1257-1273 | an older entry that stays outside on the two levels is always in a file that continues an input |
| BoundaryExamples.OutputLevelReached | contrib/leveldb/db/version_set.cc:1297-1340 | two flushes, a compaction under a snapshot and a third flush lead to the version below, and the compaction chosen from it is a legal one |
| BoundaryExamples.OutputLevelNeighbour | contrib/leveldb/db/version_set.cc:1297-1340 | a concrete compaction whose inputs at the output level are not closed: key 5 reads as nothing before and as the deleted value afterwards |
| BoundaryExamples.InputLevelReached | contrib/leveldb/db/version_set.cc:1257-1273 | two flushes and a compaction under a snapshot lead to the version below, and the move chosen from it is a legal one |
| BoundaryExamples.InputLevelNeighbour | contrib/leveldb/db/version_set.cc:1257-1273 | a concrete move of a file that is not closed in its level: the installed version breaks the invariant, and a layered read of key 5 gives the older value instead of the newer one |
| VersionFiles.FindFile | contrib/leveldb/db/version_set.cc:77-96 | the first file whose largest key is at or after the key |
| VersionFiles.SomeFileOverlapsRange | contrib/leveldb/db/version_set.cc:112-147 | true exactly when some file meets the user-key range, for overlapping and for disjoint files |
| VersionFiles.GetOverlappingInputs | contrib/leveldb/db/version_set.cc:522-563 | terminates, and returns exactly the files meeting a range; on level 0 that range is the least one that contains the given range and is closed under overlap |
| VersionFiles.OverlappingIsUnique | contrib/leveldb/db/version_set.cc:522-563 | the files of a search are determined: the least closed range is unique |
| VersionGet.TableGet | contrib/leveldb/db/version_set.cc:259-272 | one table answers with the newest entry it holds at the snapshot |
| VersionGet.SearchLevel0 | contrib/leveldb/db/version_set.cc:348-363 | level-0 files searched newest first: the first hit is the newest entry of all of them |
| VersionGet.SearchSortedLevel | contrib/leveldb/db/version_set.cc:364-381 | one binary search finds the newest entry of a whole sorted level |
| VersionGet.Get | contrib/leveldb/db/version_set.cc:323-420 | stopping at the first hit over the levels returns what the first level with a visible entry says, and under the version invariant that is what the newest entry at or below the snapshot over all files says |
| VersionGet.OverlapInLevel | contrib/leveldb/db/version_set.cc:486-491 | true exactly when some file of the level meets the user-key range |
| VersionGet.LayersHoldNewest | contrib/leveldb/db/version_set.cc:323-420 | under the version invariant the first level that holds a visible entry holds the newest one |
| VersionGet.PickLevelForMemTableOutput | contrib/leveldb/db/version_set.cc:493-519 | the deepest level, up to the limit, that the file reaches without overlapping anything on the way; sinking further was not allowed |
| VersionBuilder.SaveLevel | contrib/leveldb/db/version_set.cc:702-748 | merging base and added files leaves exactly those that are not deleted, each as often as it is listed, in order; of two files of one place the one of base comes first, and without such files the order is strict |
| VersionBuilder.Builder.constructor | contrib/leveldb/db/version_set.cc:623-632 | a builder starts with nothing deleted and nothing added |
| VersionBuilder.Builder.Apply | contrib/leveldb/db/version_set.cc:656-699 | for any edit, deletions are recorded, an added file is taken off the deletions of its level, and it joins the added files unless its place is taken |
| VersionBuilder.Builder.SaveTo | contrib/leveldb/db/version_set.cc:702-748 | for any edits, every level of the result holds exactly the live files of base and of the builder, in order |
| VersionBuilder.BatchEqualsOneByOneExactly | contrib/leveldb/db/version_set.cc:623-763 | for any list of edits, one builder saved once equals one version per edit if and only if every file that is gone has a number that stays deleted and every file that found its place taken is gone |
| VersionBuilder.BatchEqualsOneByOne | contrib/leveldb/db/version_set.cc:623-763 | in particular when no number is used twice on a level |
| VersionBuilder.ReAddedNumberRevivesOldFile | contrib/leveldb/db/version_set.cc:656-699 | re-adding a deleted number with another smallest key tells the two apart, on any level: the deleted file is back |
| VersionBuilder.ReAddedPlaceShadowsNewFile | contrib/leveldb/db/version_set.cc:656-748 | with the same smallest key the deleted file is kept and the new one is lost |
| VersionBuilder.AllKeptByAll | contrib/leveldb/db/version_set.cc:656-699 | with one file per place the builder keeps all added files |
| VersionBuilder.RevivedByBuilder | contrib/leveldb/db/version_set.cc:656-748 | a builder run over such edits saves a version with both files, or with only the deleted one when the smallest key is the same |
| CompactionInputs.GetRange | contrib/leveldb/db/version_set.cc:1176-1196 | the smallest and the largest key over the files |
| CompactionInputs.SetupOtherInputs | contrib/leveldb/db/version_set.cc:1297-1362 | the inputs are exactly the next level's files meeting the hull, grown by files of the own level exactly when that adds nothing below and stays within the size limit; the grandparents are exactly those of the final hull, the pointer is the largest input key, and inputs without gaps stay so |
| CompactionInputs.PickCompaction | contrib/leveldb/db/version_set.cc:1243-1295 | the first file whose largest key is behind the pointer, the first of the level without a pointer or such a file; on level 0 with exactly the files of the least closed range around it |
| CompactionInputs.CompactRange | contrib/leveldb/db/version_set.cc:1364-1397 | exactly the files that meet the range; deeper than level 0 the shortest front of them that reaches the size limit |
| CompactionInputs.GrowInputs | contrib/leveldb/db/version_set.cc:1310-1340 | the first set is grown exactly when this adds files, adds none below and stays within the size limit |
| CompactionInputs.NextPick | contrib/leveldb/db/version_set.cc:1243-1295 | with a file's largest key as the pointer the file behind it is next, and after the last file the first |
| CompactionInputs.EveryFileHasItsTurn | contrib/leveldb/db/version_set.cc:1243-1295 | over compactions of an unchanged level, each going on from the pointer of the one before, every file is an input before the round is over |
| CompactionInputs.SingleFileRounds | contrib/leveldb/db/version_set.cc:1243-1295 | when each takes one file, no file has a second turn before all have had one |
| FlushStep.FlushKeepsVersionOk | contrib/leveldb/db/db_impl.cc:457-501 | adding the table of a flushed memtable on its level keeps the version invariant and adds exactly its entries |
| MemTables.MemTableGet | contrib/leveldb/db/memtable.cc:108-143 | the newest entry of the user key at the snapshot, or nothing when none is visible |
| MemTables.BatchLookup | contrib/leveldb/db/write_batch.cc:111-134 | a numbered batch is invisible below its first number and wholly visible, applied in order, at its last |
| StoreEdits.CompactionInstalled | contrib/leveldb/db/db_impl.cc:834-853 | the edit of a compaction replaces the inputs by the outputs one level down, under new numbers |
| StoreEdits.MoveInstalled | contrib/leveldb/db/db_impl.cc:686-693 | the edit of a trivial move takes the file off its level and puts it one level down |
| DbFormat.LessIsTotalOrder | contrib/leveldb/db/dbformat.cc:50-66 | the internal key order is a strict total order |
| DbFormat.PackedOrderIsNewestFirst | contrib/leveldb/db/dbformat.cc:12-16 | for one user key the packed order is newest first, and a lookup key precedes exactly the entries at or below its snapshot |
| DbIterator.CursorIsExact | contrib/leveldb/db/db_iter.cc:146-304 | the reference cursor over present keys finds the next or previous key exactly when there is one |
| DbIterator.PrevUndoesNext | contrib/leveldb/db/db_iter.cc:146-230 | moving forward and back returns to the same key, and conversely |
| DbIterator.FirstVisibleIsNewest | contrib/leveldb/db/db_iter.cc:173-203 | the first visible entry of a user key in internal order is the newest one |
| DbIterator.DBIter.constructor | contrib/leveldb/db/db_iter.cc:51-61 | a new cursor is not on any key |
| DbIterator.DBIter.Key | contrib/leveldb/db/db_iter.cc:66-69 | the key shown has the value shown as its newest value at the snapshot |
| DbIterator.DBIter.Next | contrib/leveldb/db/db_iter.cc:146-171 | the next present key, from either direction |
| DbIterator.DBIter.FindNextUserEntry | contrib/leveldb/db/db_iter.cc:173-203 | stops at the first key at or after the bound whose newest visible entry is a value |
| DbIterator.DBIter.Prev | contrib/leveldb/db/db_iter.cc:205-230 | the previous present key, from either direction |
| DbIterator.DBIter.FindPrevUserEntry | contrib/leveldb/db/db_iter.cc:232-272 | stops at the last key before the bound whose newest visible entry is a value |
| DbIterator.DBIter.Seek | contrib/leveldb/db/db_iter.cc:274-286 | the first present key at or after the target |
| DbIterator.DBIter.SeekToFirst | contrib/leveldb/db/db_iter.cc:288-297 | the first present key |
| DbIterator.DBIter.SeekToLast | contrib/leveldb/db/db_iter.cc:299-304 | the last present key |
| StoreIterator.ReadAll | contrib/leveldb/db/db_iter.cc:146-304 | a scan from the first key on shows exactly the keys that read as a value at the snapshot over the whole store, with those values, ascending |
| StoreIterator.NewIterator | contrib/leveldb/db/db_impl.cc:1124-1134 | the cursor is over all entries of the store, at the snapshot or at the last sequence number |
| StoreIterator.NewInternalIterator | contrib/leveldb/db/db_impl.cc:1035-1064 | the merging iterator over memtables and tables is over exactly the entries of the store |
| StoreIterator.AddIterators | contrib/leveldb/db/version_set.cc:225-242 | the children of a version cover exactly its entries, and no two children have a key in common |
| MergingIterator.MergingIterator.constructor | contrib/leveldb/table/merger.cc:16-25 | a new cursor is not valid |
| MergingIterator.MergingIterator.SeekToFirst | contrib/leveldb/table/merger.cc:35-41 | the first entry of the sorted union |
| MergingIterator.MergingIterator.SeekToLast | contrib/leveldb/table/merger.cc:43-49 | the last entry of the sorted union |
| MergingIterator.MergingIterator.Seek | contrib/leveldb/table/merger.cc:51-57 | the first entry of the union at or after the target |
| MergingIterator.MergingIterator.Next | contrib/leveldb/table/merger.cc:59-83 | one entry on in the union, also after moving backward |
| MergingIterator.MergingIterator.Prev | contrib/leveldb/table/merger.cc:85-112 | one entry back in the union, also after moving forward |
| MergingIterator.MergingIterator.PassForward | contrib/leveldb/table/merger.cc:67-79 | the switch puts every other child just after the current entry |
| MergingIterator.MergingIterator.PassBackward | contrib/leveldb/table/merger.cc:93-108 | the switch puts every other child just before the current entry |
| MergingIterator.MergingIterator.FindSmallest | contrib/leveldb/table/merger.cc:155-168 | the smallest child entry is the next one of the union |
| MergingIterator.MergingIterator.FindLargest | contrib/leveldb/table/merger.cc:170-183 | the largest child entry is the previous one of the union |
| LogFormat.UnmaskInvertsMask | contrib/leveldb/util/crc32c.h:31-40 | unmasking gives back the checksum, in 32-bit arithmetic |
| LogFormat.NextBlock | contrib/leveldb/db/log_writer.cc:36-47 | a block trailer leads to the beginning of the next block |
| LogWriter.Writer.EmitPhysicalRecord | contrib/leveldb/db/log_writer.cc:75-100 | appends one framed record and moves the block offset by its size |
| LogWriter.Writer.SwitchBlock | contrib/leveldb/db/log_writer.cc:36-47 | fills the rest of a block in which no header fits, and nothing else |
| LogWriter.Writer.WriteFragment | contrib/leveldb/db/log_writer.cc:36-71 | each turn appends the next physical record of the encoding |
| LogWriter.Writer.AddRecord | contrib/leveldb/db/log_writer.cc:27-73 | the file grows by exactly the encoding of the record at its position |
| LogReader.Reader.constructor | contrib/leveldb/db/log_reader.cc:18-29 | reading starts at offset 0 |
| LogReader.Reader.ReadBlock | contrib/leveldb/db/log_reader.cc:183-197 | the buffer is the rest of the block, and the end of file shows in an incomplete block |
| LogReader.Reader.ParsePhysicalRecord | contrib/leveldb/db/log_reader.cc:208-262 | header checks, checksum and lengths: the same fragment, position and drops as the reference |
| LogReader.Reader.ReadPhysicalRecord | contrib/leveldb/db/log_reader.cc:181-263 | the same fragment, next position and reported drops as the reference reading of the bytes, for any file |
| LogReader.Reader.ReadRecord | contrib/leveldb/db/log_reader.cc:59-164 | the same logical record, next position and reported drops as the reference, for any file |
| LogReader.UnknownType | contrib/leveldb/db/log_reader.h:77-86 | a valid record of any unknown type: type 5 ends the log silently; any other drops the record begun earlier and is reported, except type 6 outside a fragmented record |
| LogReader.MarksGoUnreportedExactly | contrib/leveldb/db/log_reader.h:77-86 | for any file, the reader reports as much as one that keeps its marks apart from the record types if and only if it meets no valid record of type 5 and none of type 6 outside a fragmented record; then it returns the same records, otherwise it reports less |
| LogReader.ReadingEndsEarlyExactly | contrib/leveldb/db/log_reader.h:77-86 | for any file, reading stops before the end if and only if it meets a record with a valid checksum whose type byte is the number of the end mark |
| LogRoundTrip.WriteRecords | contrib/leveldb/db/log_writer.cc:27-73 | records written one after the other produce their encoding |
| LogRoundTrip.ReadRecords | contrib/leveldb/db/log_reader.cc:59-164 | reading to the end yields all logical records of the file |
| LogRoundTrip.WholeRecordsExact | contrib/leveldb/db/log_reader.cc:59-164 | the records counted as whole are exactly those that end within the prefix |
| LogRoundTrip.RecordReadsBack | contrib/leveldb/db/log_reader.cc:59-164 | a record wholly in the file reads back, with nothing dropped |
| LogRoundTrip.CutRecordIsEnd | contrib/leveldb/db/log_reader.cc:59-164 | a record the file ends inside of reads as the end of the log, silently |
| LogRoundTrip.TruncatedLogReadsBack | contrib/leveldb/db/log_reader.cc:59-164 | from every byte prefix of a log the reader returns exactly the records wholly contained in it, in order, and reports no corruption |
| LogRoundTrip.MarkedRecords | contrib/leveldb/db/log_reader.h:77-86 | an instance: a valid record of type 5 hides the record behind it, and one of type 6 outside a fragmented record is passed over, both silently |
| LogRoundTrip.LogReadsBack | contrib/leveldb/db/log_reader.cc:59-164 | a complete log reads back completely |
| LogDamage.DamagedLogReadsRest | contrib/leveldb/db/log_reader.cc:59-164 | for any records and any change of checksum or payload bytes of one physical record whose checksum then fails, what is read is, in order, exactly the records without a fragment between the damage and the end of its block, with one report for the damage, one for a record it cuts short and one for each later fragment of a record without its beginning |
| LogDamage.ReadDamaged | contrib/leveldb/db/log_reader.cc:59-164 | the reader returns exactly that |
| LogDamage.DamagedIsBad | contrib/leveldb/db/log_reader.cc:233-249 | the damaged physical record is bad, and the rest of its block is skipped with one report |
| LogDamage.OrphanDropped | contrib/leveldb/db/log_reader.cc:109-126 | the rest of a record without its beginning is dropped and each fragment reported |
| LogDamage.TornRecordIsReported | contrib/leveldb/db/log_reader.cc:66-107 | a record that is cut short by a whole or a first fragment is reported unless no byte of it had been read |
| LogDamage.AbandonedRecord | contrib/leveldb/db/log_reader.cc:66-107 | behind the first fragments of a record that was never finished all records are read, with one report if bytes of it had been written and anything follows |
| LogReplay.ReplayReads | contrib/leveldb/db/db_impl.cc:404-449 | replaying records onto tables applies their updates in order |
| LogReplay.ChainedConcat | contrib/leveldb/db/db_impl.cc:341-350 | replaying two logs in turn is replaying their concatenation |
| LogReplay.ChainedAppend | contrib/leveldb/db/db_impl.cc:1182-1192 | a record numbered after everything before it extends what replay finds by its updates |
| DurabilityRuns.DiskHoldsAcknowledged | contrib/leveldb/db/db_impl.cc:274-360 | at every moment of every run of writes, switches, flushes, compactions and moves whose placement and dropped deletions are safe, file deletions, crashes and recoveries, the tables of the manifest are present and, with the live logs replayed, give exactly the acknowledged updates in order, plus at most the one batch logged but not yet acknowledged |
| DurabilityRuns.OpenSeesAcknowledged | contrib/leveldb/db/db_impl.cc:1445-1477 | over the same runs, an open database shows exactly the acknowledged updates, whatever crashes came before |
| DurabilityRuns.AckedIsKept | contrib/leveldb/db/db_impl.cc:1162-1233 | nothing acknowledged is ever taken back |
| DurabilityRuns.NextKeepsInv | contrib/leveldb/db/db_impl.cc:1162-1233 | every step, compactions and moves under their exact conditions, keeps the durability invariant |
| DurabilityRuns.RunKeepsInv | contrib/leveldb/db/db_impl.cc:1445-1477 | every state reached by such steps satisfies the durability invariant |
| DurabilityProgress.EveryRunCanOpen | contrib/leveldb/db/db_impl.cc:274-360 | every run, whatever it ends in, goes on without a crash to an open database that shows exactly the updates acknowledged before |
| DurabilityProgress.CanOpen | contrib/leveldb/db/db_impl.cc:274-360 | the same from every state of the invariant |
| DurabilityProgress.RecoveryFinishes | contrib/leveldb/db/db_impl.cc:361-455 | every recovery under way can be finished, record by record and log by log |
| DurabilityProgress.WriteFinishes | contrib/leveldb/db/db_impl.cc:1162-1233 | every write that an open database takes can be logged, applied and acknowledged |
| DurabilityProgress.FlushFinishes | contrib/leveldb/db/db_impl.cc:503-534 | an immutable memtable can always be flushed and its version installed |
| DurabilitySteps.KeepsApplying | contrib/leveldb/db/db_impl.cc:1200-1213 | inserting and acknowledging a logged batch keeps the disk sufficient |
| DurabilitySteps.KeepsSwitching | contrib/leveldb/db/db_impl.cc:1323-1343 | a new log and memtable keep it |
| DurabilitySteps.KeepsFlushing | contrib/leveldb/db/db_impl.cc:503-534 | writing the table of the immutable memtable keeps it |
| DurabilitySteps.KeepsEmptyFlushing | contrib/leveldb/db/db_impl.cc:457-501 | a flush of a memtable without entries keeps it |
| DurabilitySteps.KeepsCompacting | contrib/leveldb/db/db_impl.cc:655-738 | a compaction whose placement and dropped deletions are safe keeps it |
| DurabilitySteps.ClosedMayCompact | contrib/leveldb/db/version_set.cc:1297-1340 | boundary-closed inputs meet both conditions |
| DurabilitySteps.KeepsMoving | contrib/leveldb/db/db_impl.cc:686-693 | a trivial move of a file that is boundary-closed in its level keeps it |
| DurabilitySteps.KeepsFlushCommit | contrib/leveldb/db/db_impl.cc:503-534 | moving the log number on with the flushed table keeps every acknowledged write |
| DurabilitySteps.KeepsReplaceCommit | contrib/leveldb/db/version_set.cc:811-894 | installing a compacted version keeps it |
| DurabilitySteps.KeepsDeletingLog | contrib/leveldb/db/db_impl.cc:218-272 | deleting a log below the log number loses nothing |
| DurabilitySteps.KeepsDeletingTable | contrib/leveldb/db/db_impl.cc:218-272 | deleting a table that no version lists loses nothing |
| DurabilitySteps.KeepsCrashing | contrib/leveldb/db/db_impl.cc:1192-1199 | a crash keeps it, whether or not the last record survives |
| DurabilityRecovery.KeepsStartRecovery | contrib/leveldb/db/db_impl.cc:304-342 | recovery finds all tables present and lists exactly the live logs |
| DurabilityRecovery.KeepsReplaying | contrib/leveldb/db/db_impl.cc:409-432 | each replayed record keeps what is still to be replayed |
| DurabilityRecovery.KeepsRecoveryFlush | contrib/leveldb/db/db_impl.cc:434-448 | a memtable flushed during replay keeps it |
| DurabilityRecovery.KeepsFinishLog | contrib/leveldb/db/db_impl.cc:343-350 | the end of a log keeps it |
| DurabilityRecovery.KeepsNewLog | contrib/leveldb/db/db_impl.cc:1454-1462 | the new log number of an opened database keeps it |
| DurabilityRecovery.KeepsFinishOpen | contrib/leveldb/db/db_impl.cc:1463-1472 | the database opens with exactly what the disk held |
| GroupCommit.BuildBatchGroup | contrib/leveldb/db/db_impl.cc:1237-1282 | the group is the longest prefix of the queue in which nobody asks for a sync the leader does not do and the size limit holds, and its batch is theirs in order; a small leader's group grows by at most 128K, any other stays within 1M unless the leader alone is larger |
| GroupCommit.GroupSyncs | contrib/leveldb/db/db_impl.cc:1254-1263 | nobody who asked for a sync is served by a leader who did not |
| GroupCommit.NextKeepsInv | contrib/leveldb/db/db_impl.cc:1162-1233 | every step of writers, leader and log keeps the protocol invariant |
| GroupCommit.RunKeepsInv | contrib/leveldb/db/db_impl.cc:1162-1233 | so does every interleaving |
| GroupCommit.WritesAreLoggedInOrder | contrib/leveldb/db/db_impl.cc:1162-1233 | in every interleaving each finished batch is logged exactly once, in queue order, with contiguous numbers; its updates lie within the record that serves it, which is synced before the writer returns if it asked for that |
| GroupCommit.ReadersSeeWholeBatches | contrib/leveldb/db/db_impl.cc:1162-1233 | also while a group is half applied, the published sequence number shows exactly the finished batches |
| GroupCommit.SnapshotsAreStable | contrib/leveldb/db/db_impl.cc:1143-1146 | a snapshot reads the same ever after |
| GroupCommit.GroupLimits | contrib/leveldb/db/db_impl.cc:1241-1275 | every group keeps these limits, and the writer behind it would have exceeded them or asks for a sync |
| GroupProgress.NobodyIsStuck | contrib/leveldb/db/db_impl.cc:1162-1233 | every interleaving goes on, with nobody new, to a state in which all writers are finished |
| GroupProgress.AllCanFinish | contrib/leveldb/db/db_impl.cc:1162-1233 | the same from every state of the invariant |
| WriteBatches.UpdatesReadBack | contrib/leveldb/db/write_batch.cc:42-80 | parsing inverts writing, with any bytes behind |
| WriteBatches.CutBatchReadsBack | contrib/leveldb/db/write_batch.cc:42-80 | of a batch cut short exactly the whole updates are delivered, and the end is clean if and only if the cut is between updates |
| WriteBatches.BatchReadsBack | contrib/leveldb/db/write_batch.cc:42-80 | every batch delivers exactly the updates it holds, in order, and is accepted |
| WriteBatches.HoldsMore | contrib/leveldb/db/write_batch.cc:98-109 | counts add up in 32-bit arithmetic when updates are appended |
| WriteBatches.WriteBatch.constructor | contrib/leveldb/db/write_batch.cc:29-31 | a new batch holds nothing |
| WriteBatches.WriteBatch.Clear | contrib/leveldb/db/write_batch.cc:37-40 | a cleared batch holds nothing |
| WriteBatches.WriteBatch.Put | contrib/leveldb/db/write_batch.cc:98-103 | the batch holds one update more |
| WriteBatches.WriteBatch.Delete | contrib/leveldb/db/write_batch.cc:105-109 | the batch holds one deletion more |
| WriteBatches.WriteBatch.SetSequence | contrib/leveldb/db/write_batch.cc:94-96 | the number reads back and the updates stay |
| WriteBatches.WriteBatch.Append | contrib/leveldb/db/write_batch.cc:141-145 | the batch holds its updates followed by those of the other one, also when both are the same |
| WriteBatches.WriteBatch.Iterate | contrib/leveldb/db/write_batch.cc:42-80 | the handler calls and the status are those of the bytes, for any bytes |
| WriteBatches.WriteBatch.InsertInto | contrib/leveldb/db/write_batch.cc:128-134 | each update is added under the next sequence number, up to the first flaw |
| ManifestFormat.FieldReadsBack | contrib/leveldb/db/version_edit.cc:41-86 | every tagged field reads back, whatever follows |
| ManifestFormat.SliceReadsBack | contrib/leveldb/util/coding.cc:98-101 | a length-prefixed string reads back |
| VersionEdits.EditReadsBack | contrib/leveldb/db/version_edit.cc:109-210 | an edit written and read into a fresh edit comes back unchanged |
| VersionEdits.FieldsReadBack | contrib/leveldb/db/version_edit.cc:109-210 | any sequence of written fields is set one by one |
| VersionEdits.StalePointersStay | contrib/leveldb/db/version_edit.cc:26-39 | an edit decoded into one that was only cleared has the stale compaction pointers in front of its own, and is unchanged exactly when there are none |
| VersionEdits.VersionEdit.Clear | contrib/leveldb/db/version_edit.cc:26-39 | everything but the compaction pointers is cleared |
| VersionEdits.VersionEdit.EncodeTo | contrib/leveldb/db/version_edit.cc:41-86 | appends the fields of the edit in their fixed order |
| VersionEdits.VersionEdit.DecodeFrom | contrib/leveldb/db/version_edit.cc:109-210 | succeeds exactly when the reference does, and then holds what it gives, for any bytes |
| ManifestRecovery.Recover | contrib/leveldb/db/version_set.cc:896-1009 | for any manifest bytes: fails exactly when a corruption is reported, a record does not decode, a comparator differs or a number was never recorded; otherwise the version has the files added and not deleted in the end, the first of two that have one place, and each number is the last one recorded |
| ManifestRecovery.SavedIsVersion | contrib/leveldb/db/version_set.cc:623-763 | that version is the one of the edits applied one at a time if and only if no file is revived and none is shadowed |
| ManifestRecovery.WrittenDecodes | contrib/leveldb/db/version_set.cc:896-1009 | records that were written decode to the edits they say |
| ManifestRecovery.RecoverPrefix | contrib/leveldb/db/version_set.cc:896-1009 | from any byte prefix of a manifest recovery gives what the complete records say, and fails exactly when they name another comparator or lack a number |
| ManifestRecovery.WriteSnapshot | contrib/leveldb/db/version_set.cc:1054-1082 | the record lists comparator, pointers and all files |
| ManifestRecovery.SnapshotIsVersion | contrib/leveldb/db/version_set.cc:1054-1082 | applied to nothing, a snapshot gives the files of the version it describes |
| ManifestRecovery.SnapshotThenEdits | contrib/leveldb/db/version_set.cc:896-1009 | a snapshot followed by edits stands for the edits applied to the version of the snapshot |
| ManifestLog.LogAll | contrib/leveldb/db/version_set.cc:811-894 | edit by edit, behind a snapshot of the current version, the manifest gets the record of the edit and the store the next version |
| ManifestLog.SavedFromSnapshot | contrib/leveldb/db/version_set.cc:896-1009 | what recovery gives for a snapshot and later edits is the version of the snapshot with the edits applied one by one, when no file is revived or shadowed |
| ManifestLog.RecoversInstalled | contrib/leveldb/db/version_set.cc:896-1009 | recovery from the snapshot and the first k edits gives exactly the version that was installed after them |
| ManifestLog.CrashAndRecover | contrib/leveldb/db/version_set.cc:811-1009 | versions are logged and installed, the manifest is cut off at any byte, and recovery finds the version that was installed with the last complete record; from the whole manifest, the current version |
| SnappyRoundTrip.RoundTrip | contrib/leveldb/snappy/snappy.cc:1220-1302 | for every input shorter than 2^32 bytes, decompressing what compression wrote succeeds and returns the input |
| SnappyRoundTrip.RawCompress | contrib/leveldb/snappy/snappy.cc:874-953 | the output decompresses to the input and is never longer than 32 + n + n/6; its length is exactly that of the greedy reference, and for n equal bytes at most (n + 500)/16 |
| SnappyRoundTrip.RawUncompress | contrib/leveldb/snappy/snappy.cc:1220-1228 | succeeds exactly when the bytes stand for a text of the announced length, writes that text and nothing past the announced length, for any bytes |
| SnappyCompress.GetHashTable | contrib/leveldb/snappy/snappy.cc:247-271 | a zeroed table of the least power of two from 256 on that reaches the input size or the limit |
| SnappyCompress.FindMatchLength | contrib/leveldb/snappy/snappy-internal.h:85-119 | the largest number of agreeing bytes up to the end of the input |
| SnappyCompress.MatchIsCopy | contrib/leveldb/snappy/snappy.cc:416-425 | a match of the input with an earlier position is what a copy expands to, also when they overlap |
| SnappyCompress.ScanForMatch | contrib/leveldb/snappy/snappy.cc:377-397 | found is the first of the visited positions whose four bytes are those of its candidate, and nothing is found only if none is; the table maps each hash to the last position put in |
| SnappyCompress.CopyMatches | contrib/leveldb/snappy/snappy.cc:416-439 | what is emitted so far stands for the input so far, and it is one copy of the whole match after the other for as long as the text behind agrees with its candidate |
| SnappyCompress.CompressFragment | contrib/leveldb/snappy/snappy.cc:329-453 | the bytes emitted for a fragment stand for it, behind any prefix, and are as many as the greedy reference takes |
| SnappyEmit.EmitLiteral | contrib/leveldb/snappy/snappy.cc:156-196 | the bytes emitted are exactly one literal item of the input range |
| SnappyEmit.EmitCopyLessThan64 | contrib/leveldb/snappy/snappy.cc:198-214 | the bytes emitted are exactly one copy item |
| SnappyEmit.EmitCopy | contrib/leveldb/snappy/snappy.cc:216-232 | the pieces emitted stand for one copy of the whole length, take exactly the bytes of the splitting into pieces of 64 and at most one of 60, and fewer than they copy |
| SnappyEmit.LiteralReadsBack | contrib/leveldb/snappy/snappy.cc:160-195 | the tag of a literal gives back its length |
| SnappyGreedy.FirstMatchIsFirst | contrib/leveldb/snappy/snappy.cc:377-397 | the match of the reference is at the first visited position that agrees with its candidate; without a match no visited position does |
| SnappyGreedy.MatchLengthIsExact | contrib/leveldb/snappy/snappy-internal.h:85-119 | a match goes on exactly as long as the bytes agree |
| SnappyGreedy.CopiesEnd | contrib/leveldb/snappy/snappy.cc:416-439 | copies follow each other until near the end of the input, or until the text behind does not agree with its candidate |
| SnappySizes.RunsCompress | contrib/leveldb/snappy/snappy.cc:329-453 | for any table size, an input of long runs of equal bytes takes exactly a literal of one byte and one copy for each run |
| SnappySizes.EqualBlocks | contrib/leveldb/snappy/snappy.cc:874-953 | n equal bytes take at most (n + 420)/16 bytes |
| SnappyFormat.ExpandRepeats | contrib/leveldb/snappy/snappy.cc:87-103 | a copy is the one extension that repeats with the period of its offset |
| SnappyFormat.ExpandTwice | contrib/leveldb/snappy/snappy.cc:216-232 | two copies with one offset make one longer copy |
| SnappyFormat.RunConcat | contrib/leveldb/snappy/snappy.cc:716-787 | a stream after a stream stands for the texts in turn |
| SnappyFormat.RunAfter | contrib/leveldb/snappy/snappy.cc:923-945 | a fragment that reads well from nothing reads well behind any text |
| SnappyTable.EntryFields | contrib/leveldb/snappy/snappy.cc:505-549 | each table entry says the extra bytes, length and offset bits the format gives the tag byte |
| SnappyTable.ComputeTable | contrib/leveldb/snappy/snappy.cc:567-650 | each of the 256 entries is assigned exactly once, with its value |
| SnappyWriter.IncrementalCopy | contrib/leveldb/snappy/snappy.cc:98-103 | the bytes written repeat what is offset bytes before, and nothing else changes |
| SnappyWriter.IncrementalCopyFastPath | contrib/leveldb/snappy/snappy.cc:140-152 | the same bytes as the byte-by-byte copy, with at most ten bytes written past the end |
| SnappyWriter.ArrayWriter.Append | contrib/leveldb/snappy/snappy.cc:1159-1168 | the text grows by the bytes, or there is no room; nothing past the limit changes |
| SnappyWriter.ArrayWriter.TryFastAppend | contrib/leveldb/snappy/snappy.cc:1170-1182 | on success the text grows by exactly the length asked for |
| SnappyWriter.ArrayWriter.AppendFromSelf | contrib/leveldb/snappy/snappy.cc:1184-1217 | all three branches append what the copy expands to, succeed exactly for a legal offset and length, and never write past the limit |
| SnappyDecompress.SnappyDecompressor.ReadUncompressedLength | contrib/leveldb/snappy/snappy.cc:692-711 | the announced length, at most five bytes in 32-bit arithmetic, taken off the stream |
| SnappyDecompress.SnappyDecompressor.RefillTag | contrib/leveldb/snappy/snappy.cc:790-847 | a whole tag is available unless the stream ends; nothing of the stream is lost |
| SnappyDecompress.SnappyDecompressor.AppendLiteral | contrib/leveldb/snappy/snappy.cc:752-767 | the next bytes of the stream are appended, across refills |
| SnappyDecompress.SnappyDecompressor.DecompressLiteral | contrib/leveldb/snappy/snappy.cc:732-768 | one turn keeps the outcome of the stream for a literal |
| SnappyDecompress.SnappyDecompressor.DecompressCopy | contrib/leveldb/snappy/snappy.cc:769-783 | one turn keeps the outcome of the stream for a copy |
| SnappyDecompress.SnappyDecompressor.DecompressAllTags | contrib/leveldb/snappy/snappy.cc:716-787 | succeeds if and only if the stream stands for a text of the expected length, and then has written it, for any bytes |
| Varint.VarintReadsBack | contrib/leveldb/util/coding.cc:81-90 | a number reads back, whatever follows |
| Varint.EncodingIsShortest | contrib/leveldb/util/coding.cc:112-170 | no bytes that read as a number are fewer than those written for it |
| Varint.ReadAhead | contrib/leveldb/util/coding.cc:112-129 | bytes behind a number do not change it |
| Varint.LongInvertsEncode | contrib/leveldb/util/coding.cc:20-33 | a fixed 64-bit word reads back |
| Varint.EncodeVarint32 | contrib/leveldb/util/coding.cc:47-73 | the unrolled encoder writes the same bytes as the loop |
| Varint.EncodeVarint64 | contrib/leveldb/util/coding.cc:81-90 | the encoder loop writes the encoding |
| Varint.GetVarint32 | contrib/leveldb/util/coding.cc:112-141 | the 32-bit reader: at most five bytes, modulo 2^32 |
| Varint.GetVarint64 | contrib/leveldb/util/coding.cc:143-170 | the 64-bit reader: at most ten bytes, modulo 2^64 |
| Bytes.DecodeInvertsEncode | contrib/leveldb/util/coding.cc:9-18 | a fixed 32-bit word reads back |
| SkipLists.SkipList.constructor | contrib/leveldb/db/skiplist.h:322-331 | a new list is valid and empty |
| SkipLists.SkipList.FindGreaterOrEqual | contrib/leveldb/db/skiplist.h:259-278 | the earliest node at or after the key, and on every level the node before it |
| SkipLists.SkipList.FindLessThan | contrib/leveldb/db/skiplist.h:282-299 | the latest node before the key |
| SkipLists.SkipList.FindLast | contrib/leveldb/db/skiplist.h:302-319 | the last node |
| SkipLists.SkipList.Contains | contrib/leveldb/db/skiplist.h:370-377 | true exactly for the keys of the list |
| SkipLists.SkipList.PointOn | contrib/leveldb/db/skiplist.h:364-364 | after the first store of a level the list is as valid as before |
| SkipLists.SkipList.PointTo | contrib/leveldb/db/skiplist.h:365-365 | the second store puts exactly the new node into exactly that level; the list is valid |
| SkipLists.SkipList.LinkLevel | contrib/leveldb/db/skiplist.h:361-366 | both stores of one level, with the list valid in between |
| SkipLists.SkipList.RandomHeight | contrib/leveldb/db/skiplist.h:240-250 | a height from one to the maximum |
| SkipLists.SkipList.Raise | contrib/leveldb/db/skiplist.h:343-358 | new upper levels are empty and reached from the head |
| SkipLists.SkipList.Insert | contrib/leveldb/db/skiplist.h:334-367 | for any height drawn, every level stays a sorted part of the level below and exactly the new key is added |
| SkipLists.Iterator.Seek | contrib/leveldb/db/skiplist.h:222-224 | the first node at or after the target |
| SkipLists.Iterator.SeekToFirst | contrib/leveldb/db/skiplist.h:227-229 | the first node |
| SkipLists.Iterator.SeekToLast | contrib/leveldb/db/skiplist.h:232-237 | the last node |
| SkipLists.Iterator.Next | contrib/leveldb/db/skiplist.h:205-208 | one node on |
| SkipLists.Iterator.Prev | contrib/leveldb/db/skiplist.h:211-219 | one node back, found by searching |
| BlockFormat.BlockBuilder.constructor | contrib/leveldb/table/block_builder.cc:39-46 | a new block is empty |
| BlockFormat.BlockBuilder.Add | contrib/leveldb/table/block_builder.cc:73-107 | the block holds one entry more |
| BlockFormat.BlockBuilder.Finish | contrib/leveldb/table/block_builder.cc:63-71 | entries followed by the restart array; an entry is a restart point exactly after each interval of entries, and every other shares the longest prefix with the one before |
| BlockFormat.SharedPrefix | contrib/leveldb/table/block_builder.cc:81-85 | the longest common prefix |
| BlockFormat.RestartsReadBack | contrib/leveldb/table/block_builder.cc:63-71 | the restart array and its length read back from the end of the block |
| BlockIterator.DecodeEntry | contrib/leveldb/table/block.cc:53-74 | for any bytes the one-byte fast path and the early exit give what three general lengths and the 32-bit room check give |
| BlockIterator.HeaderOfPair | contrib/leveldb/table/block.cc:53-74 | the header of a written entry says where its parts lie |
| BlockIterator.BlockReadsBack | contrib/leveldb/table/block.cc:23-38 | the end of a finished block gives back its restart points |
| BlockIterator.Iter.ShowsEntry | contrib/leveldb/table/block.cc:128-137 | the cursor is valid exactly on an entry, with its whole key and value |
| BlockIterator.NewIterator | contrib/leveldb/table/block.cc:256-266 | an error exactly when the bytes cannot end in restart points, no entries when there is no restart point, and on a block of a builder a cursor over its entries |
| BlockIterator.Iter.EntryParses | contrib/leveldb/table/block.cc:54-74 | parsing where an entry of a builder begins gives its whole key and its value |
| BlockIterator.Iter.Next | contrib/leveldb/table/block.cc:139-142 | one entry on; in any bytes, to what parsing behind the current value gives |
| BlockIterator.Iter.Prev | contrib/leveldb/table/block.cc:144-163 | one entry back, across restart points; in any bytes, to an entry that begins before the current one and reaches it, or an error |
| BlockIterator.Iter.Seek | contrib/leveldb/table/block.cc:165-203 | the first entry at or after the target, for any strict weak order; in any bytes, where a linear search ends from the restart point with a key below the target in front of one that is not below it, or an error at a restart point without a whole key |
| BlockIterator.Iter.SeekToFirst | contrib/leveldb/table/block.cc:205-208 | the first entry; in any bytes, what parsing at the first restart point gives |
| BlockIterator.Iter.SeekToLast | contrib/leveldb/table/block.cc:210-215 | the last entry; in any bytes, one that ends where the restart array begins, or an error |
| BlockIterator.Iter.ParseNextKey | contrib/leveldb/table/block.cc:226-253 | the next entry or the end, and in any bytes an error that makes the cursor invalid exactly when no entry can be decoded behind the current key |
| KeyOrder.FindShortestSeparator | contrib/leveldb/util/comparator.cc:29-51 | at or after the start; changed exactly when the keys differ where the start's byte can grow and stay below the limit's, then before the limit and the shortest key that is |
| KeyOrder.FindShortSuccessor | contrib/leveldb/util/comparator.cc:53-65 | at or after the key; changed exactly when a byte of it is not 0xff, and then the shortest key that is |
| KeyOrder.SeparateKeys | contrib/leveldb/db/dbformat.cc:68-85 | at or after the last key, before the next one, and no key of the gap has the next key's user key; shortened exactly when the shortest separator of the user keys is shorter, and to that |
| KeyOrder.SucceedKey | contrib/leveldb/db/dbformat.cc:87-99 | at or after the key; shortened exactly when the short successor of the user key is shorter, and to that |
| TableFormat.SeekSplits | contrib/leveldb/table/table.cc:216-225 | index seek then block seek stands for one seek over all rows |
| TableFormat.InternalGet | contrib/leveldb/table/table.cc:216-245 | a row found is the first row at or after the key, and that row is found whenever it has the key's user key, given a filter without false negatives |
| TableBuilding.TableBuilder.constructor | contrib/leveldb/table/table_builder.cc:63-68 | a new table is empty |
| TableBuilding.TableBuilder.Add | contrib/leveldb/table/table_builder.cc:92-121 | the rows of the blocks, the open block and the new row are the rows added so far, and blocks are closed exactly when they are full |
| TableBuilding.TableBuilder.Flush | contrib/leveldb/table/table_builder.cc:123-137 | writing a block out changes no row |
| TableBuilding.TableBuilder.Finish | contrib/leveldb/table/table_builder.cc:199-254 | the blocks hold exactly the added rows in order, cut by size, and each separator lies between its block and the next, with a clean gap |
| TableBytes.BuildAndGet | contrib/leveldb/table/table.cc:216-245 | a table built row by row, written as bytes and looked up in: an entry found is that of the first row at or after the key, and it is found whenever that row has the key's user key |
| TableBytes.Get | contrib/leveldb/table/table.cc:216-245 | index block, filter block and data block, all read as bytes, together stand for a search of all rows; nothing is found when the filter says no |
| TableBytes.Write | contrib/leveldb/table/table_builder.cc:92-254 | blocks, filter and index written in turn make a table whose lookups are exact |
| TableBytes.WriteBlock | contrib/leveldb/table/table_builder.cc:115-129 | the bytes are a block of exactly these rows |
| TableBytes.SeekInBlock | contrib/leveldb/table/table.cc:225-235 | seeking in a block's bytes gives the first row at or after the key |
| TableBytes.EncodedLessIsOrder | contrib/leveldb/db/dbformat.cc:50-66 | the order of encoded internal keys is a strict weak order |
| TableBytes.KeyReadsBack | contrib/leveldb/db/dbformat.cc:18-21 | an encoded internal key reads back |
| TableBytes.DecodeHandle | contrib/leveldb/table/format.cc:15-30 | an encoded block handle reads back |
| TableBytes.BuildTable | contrib/leveldb/table/table_builder.cc:92-254 | rows added one by one end up in blocks that are full only with their last row, all but the last of them full |
| TwoLevelIterators.TwoLevelIterator.constructor | contrib/leveldb/table/two_level_iterator.cc:76-86 | a new cursor over the bytes of a table is on no row |
| TwoLevelIterators.TwoLevelIterator.ShowsRow | contrib/leveldb/table/two_level_iterator.cc:34-44 | the cursor is valid exactly on a row of the table, and shows its key and value as they are in the bytes |
| TwoLevelIterators.TwoLevelIterator.Seek | contrib/leveldb/table/two_level_iterator.cc:91-96 | the first row at or after the target over all blocks, through the bytes of the index and of the block |
| TwoLevelIterators.TwoLevelIterator.SeekToFirst | contrib/leveldb/table/two_level_iterator.cc:98-103 | the first row |
| TwoLevelIterators.TwoLevelIterator.SeekToLast | contrib/leveldb/table/two_level_iterator.cc:105-110 | the last row |
| TwoLevelIterators.TwoLevelIterator.Next | contrib/leveldb/table/two_level_iterator.cc:112-116 | one row on, skipping empty blocks |
| TwoLevelIterators.TwoLevelIterator.Prev | contrib/leveldb/table/two_level_iterator.cc:118-122 | one row back, skipping empty blocks |
| TwoLevelIterators.TwoLevelIterator.SkipEmptyDataBlocksForward | contrib/leveldb/table/two_level_iterator.cc:125-136 | ends on the first row from the block on, if any |
| TwoLevelIterators.TwoLevelIterator.SkipEmptyDataBlocksBackward | contrib/leveldb/table/two_level_iterator.cc:138-149 | ends on the last row before the block, if any |
| TwoLevelIterators.TwoLevelIterator.InitDataBlock | contrib/leveldb/table/two_level_iterator.cc:156-170 | afterwards the data cursor is in the block of the index cursor, or there is none, and a block that is already open stays as it is |
| TwoLevelIterators.OpenBlock | contrib/leveldb/table/table.cc:154-208 | the index value leads to the bytes of its block |
| TwoLevelIterators.Scan | contrib/leveldb/table/two_level_iterator.cc:91-149 | going through the bytes of a table from the front yields its rows, each once and in order |
| BloomFilter.CreateFilter | contrib/leveldb/util/bloom.cc:35-61 | appends the bits of all probes of all keys, and the number of probes |
| BloomFilter.KeyMayMatch | contrib/leveldb/util/bloom.cc:63-87 | true exactly when all probes are set, or the filter is of a kind that lets everything through |
| BloomFilter.FilterLetsKeysThrough | contrib/leveldb/util/bloom.cc:35-87 | no false negatives: a filter lets every one of its keys through |
| BloomFilter.SetBitSets | contrib/leveldb/util/bloom.cc:56-57 | setting a bit sets that bit and no other |
| BloomFilter.FilterIsExact | contrib/leveldb/util/bloom.cc:35-87 | a filter lets a key through if and only if each of its probes is a probe of some key of the filter; an empty one nothing |
| FilterBlock.FilterBlockBuilder.AddKey | contrib/leveldb/table/filter_block.cc:30-34 | the key is pending for the block's filter |
| FilterBlock.FilterBlockBuilder.GenerateFilter | contrib/leveldb/table/filter_block.cc:52-76 | the filter of exactly the pending keys is at its offset; empty for none |
| FilterBlock.FilterBlockBuilder.StartBlock | contrib/leveldb/table/filter_block.cc:22-28 | all filters before the block are finished, each of exactly its keys |
| FilterBlock.FilterBlockBuilder.Finish | contrib/leveldb/table/filter_block.cc:36-50 | the finished bytes, offsets in 32 bits, answer for every offset and key as the filter of exactly the keys added under that offset does |
| FilterBlock.FilterBlockReader.constructor | contrib/leveldb/table/filter_block.cc:78-93 | the reader finds what any bytes say at their end, and no entries when that makes no sense |
| FilterBlock.FilterBlockReader.KeyMayMatch | contrib/leveldb/table/filter_block.cc:95-109 | the answer for any bytes, errors being potential matches |
| FilterBlock.AnswerOfBlock | contrib/leveldb/table/filter_block.cc:78-109 | for a finished filter block that is the answer of the filter of the block's offset; a missing one lets every key through |
| FilterBlock.FilterBlockReadsBack | contrib/leveldb/table/filter_block.cc:78-109 | offsets, limits and base read back from the bytes |
| FilterBlock.BuildFilters | contrib/leveldb/table/filter_block.cc:22-109 | no false negatives in the bytes: asked for the offset of its block, the finished filter block lets each key of each block through |
| FilterBlock.AskForKey | contrib/leveldb/table/filter_block.cc:22-109 | a reader opened on those bytes says yes for each key of each block |
| FilterBlock.BloomMissesNothing | contrib/leveldb/util/bloom.cc:35-87 | the Bloom filter is a policy without false negatives |
| HandleTables.HandleTable.constructor | contrib/leveldb/util/cache.cc:55-55 | a new table, after its first resize, is valid and empty |
| HandleTables.HandleTable.FindPointer | contrib/leveldb/util/cache.cc:98-105 | the slot of the entry with the key and hash, or the last slot of its chain exactly when there is none |
| HandleTables.HandleTable.Lookup | contrib/leveldb/util/cache.cc:58-60 | the entry with the key and hash, or null exactly when there is none |
| HandleTables.HandleTable.Insert | contrib/leveldb/util/cache.cc:62-76 | exactly the entry with this key is replaced; the table grows exactly when a new entry exceeds one for each bucket, and then no more than it has to |
| HandleTables.HandleTable.Remove | contrib/leveldb/util/cache.cc:78-86 | exactly the entry with this key is taken out |
| HandleTables.HandleTable.Resize | contrib/leveldb/util/cache.cc:107-131 | every entry is moved to its bucket of the larger table and none is lost; no more buckets than needed |
| HandleTables.LowBits | contrib/leveldb/util/cache.cc:99-99 | for a number of buckets that is a power of two the low bits of a hash are its remainder |
| LruCache.LiveIsCachedOrHeld | contrib/leveldb/util/cache.cc:186-194 | what is allocated is exactly what is cached or held by a client, the usage is its charge, and no deleter ran on any of it |
| LruCache.LruRemove | contrib/leveldb/util/cache.cc:196-199 | the ring without the entry |
| LruCache.LruAppend | contrib/leveldb/util/cache.cc:201-207 | the ring with the entry as the newest |
| LruCache.LruCache.constructor | contrib/leveldb/util/cache.cc:170-175 | a new cache is empty |
| LruCache.LruCache.Unref | contrib/leveldb/util/cache.cc:186-194 | the last reference, and no other, frees the entry and runs its deleter |
| LruCache.LruCache.Lookup | contrib/leveldb/util/cache.cc:209-218 | a hit becomes the newest entry and gives the client one handle; a miss means that no cached entry has the key |
| LruCache.LruCache.Release | contrib/leveldb/util/cache.cc:220-223 | one handle goes; the entry dies exactly when nobody else has it |
| LruCache.LruCache.EvictOldest | contrib/leveldb/util/cache.cc:249-252 | the oldest entry leaves the ring and the table together |
| LruCache.LruCache.Evict | contrib/leveldb/util/cache.cc:248-253 | usage is within capacity or the ring is empty; exactly the oldest entries left, and not one more than needed |
| LruCache.LruCache.Insert | contrib/leveldb/util/cache.cc:225-256 | the new entry replaces the one with its key and then the oldest go; each dropped entry without a client is freed once, in order |
| LruCache.LruCache.Erase | contrib/leveldb/util/cache.cc:258-265 | exactly the entry with this key leaves the cache; it dies unless a client holds it |
| SnapshotLists.SnapshotList.Smallest | contrib/leveldb/db/db_impl.cc:868-872 | the sequence number a compaction has to serve: no live snapshot is older |
| SnapshotLists.SnapshotList.Oldest | contrib/leveldb/db/snapshot.h:38-38 | no live snapshot is older |
| SnapshotLists.SnapshotList.Newest | contrib/leveldb/db/snapshot.h:39-39 | no live snapshot is newer |
| SnapshotLists.SnapshotList.New | contrib/leveldb/db/snapshot.h:41-50 | the new snapshot is the newest, and the ring stays in order |
| SnapshotLists.SnapshotList.Delete | contrib/leveldb/db/snapshot.h:52-57 | exactly this snapshot goes |
| PostingLists.Jump | projects/indexer/src/index_struct.cpp:425-439 | the least index from pos on whose document is at or after the given one; the exception exactly when there is none |
| PostingLists.IntersectMore | projects/indexer/src/index_struct.cpp:452-480 | exactly the rows whose document the list has, each extended by the list's entry |
| PostingLists.IntersectEntries | projects/indexer/src/index_struct.cpp:490-514 | the lists joined one after the other, through the ping-pong of output and temporary |
| PostingLists.IntersectionIsExact | projects/indexer/src/index_struct.cpp:490-514 | one row per document common to all lists, ascending, whose j-th element is that document's entry in list j, and no other row |

## Left out

- The interleaving of a flush with a running compaction (contrib/leveldb/db/db_impl.cc:886-894): flush, compaction and move are atomic steps of the store, and one background job runs at a time.
- I/O errors, background errors and repair: a failure is a crash at that point. A log append is durable when it returns, a manifest record reaches the disk whole or not at all; partly written records are the subject of `LogRoundTrip.TruncatedLogReadsBack` and `ManifestRecovery.RecoverPrefix`.
- Corrupted internal keys in compactions and cursors. The log reader, manifest recovery, the edit decoder, the batch reader, the filter reader, the block cursor and the decompressor are modelled on any bytes.
- BlockIterator.Iter.ParseNextKey: two lengths whose sum reaches 2^32 and so only seem to fit (contrib/leveldb/table/block.cc:70) are an error in the model; the source does not detect them.
- BlockIterator.NewIterator: for blocks with less than 2^32 bytes of entries, because the source keeps offsets in 32 bits.
- WriteBatches.WriteBatch.Iterate: updates are counted in wrapping 32-bit arithmetic, as the stored count is; C++ leaves the overflow of either undefined.
- Debug assertions, such as the one against overlapping files when a version is saved.
- User keys are integers in comparator order in the store and iterator modules, and byte strings in the key order, block, table and record modules.
- The memtable of the store is a sorted sequence; the skip list is modelled beside it, with its stores as a sequence and memory ordering left out. A cursor is over the entries present when it was made; later ones carry larger sequence numbers.
- Footer, metaindex block, block compression and the check of block trailers: a table is the file with its data blocks, the index block and the filter block, and trailers are any bytes. The block cache and the sharding of the cache are not part of this model. `TwoLevelIterators` takes tables whose bytes are those of their rows.
- TableBytes.Write: for tables whose blocks, index and filter are shorter than 2^32 bytes, because the source stores offsets inside them in 32 bits.
- FilterBlock.BuildFilters: likewise for filter blocks. A base of 64 or more in the last byte, a shift that C++ leaves undefined, gives index 0.
- Compaction scores, seek statistics, read sampling and compaction pointers as fields of the version set: the level and the pointer are parameters, and the next pointer is a result. Locks, waiting and slowdown delays, logging and option handling.
- The checksum and the hashes are arbitrary functions; the number of Bloom probes is a parameter, not computed from the bits per key in floating point; the filter policy that strips internal keys is one of the policies `FilterBlock` allows.
- The random heights of the skip list are a parameter. Sizes of written tables are an arbitrary function of their entries. It stands both for the size checked while an output is written and for the one recorded when it is closed, which also counts the index.
- `Reader::SkipToInitialBlock` and reading from an offset other than 0; the database always reads from 0. Reported byte counts of dropped log data; the number of reports is modelled.
- Snappy's scattered sources and sinks, `SnappyIOVecWriter`, the validator, and the big-endian code paths.
- Writers without a batch: one that joins a group is finished with it, and that it then forced no memtable switch is the code's behaviour and is not stated.
- TableFormat.InternalGet: says nothing about rows of other user keys that the searched block happens to return, beyond that they are the first row at or after the key.
- The destructor of the cache.
- The indexer's merge of temporary files, ranking, document storage, tokenizing and snippets; the search front end and the spider. Lists are intersected in the order given; the sort by size is commented out in the source.
