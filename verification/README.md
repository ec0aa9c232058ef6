# LevelDB and nanopb: a model with proofs

The repository's own application code is thin; what decides whether its data survives is the storage engine it
ships, LevelDB (under Firestore's cache), and its protocol-buffer codec, nanopb. This project models their logic in
Dafny, in the form the C++ and C have it (classes with fields, loops, in-place updates), and proves what the code is
for.

## What is modelled and proved

**Reads and the compaction machinery.** A database is a set of entries `(user key, sequence number, type) -> value`.
A read at a snapshot is the newest entry of the user key that the snapshot sees, a tombstone meaning "not found"
(module `Dbformat`). `Database` is a state machine whose steps are write, memtable switch, flush, trivial move, start
and end of a compaction, and taking and releasing a snapshot; memtables are flushed while a compaction runs, too.
`DatabaseSafety` proves the level invariants over all of them, with the exact condition for the end of a compaction;
`OutputCuts` states it on the state before, `Gapless` that compactions the database picks itself always meet it;
`SnapshotReads` that no background step changes an
answer that a live snapshot can observe, except in one situation, which is characterised exactly; and `DbObject` that the
methods of `DBImpl` are steps of that machine.
`CompactionInputs`, `Compaction`, `VersionBuilder`, `VersionGet` and `LevelChange` hold the algorithms: transitive
overlap and boundary files, the drop rule, the builder, the read path over files.

**Manifest.** `VersionEdits`, `Manifest` and `StepEdits` show that replaying the manifest, a snapshot and every later
edit, gives back the installed version and counters, and that the edits the database makes meet what this needs.
`EditCodec` has the byte encoding of edits, and `ManifestBytes` joins it with the log: the bytes of a manifest file,
whole or cut off anywhere, lead to a version that was installed.

**Durability.** `LogFormat`, `LogSafety`, `LogWriter` and `LogReader` cover the log of 32 KB blocks: any byte prefix of
a log reads as exactly its complete records, and damage costs the records of one block. `WriteBatch` and `Recovery` carry
that up to commit groups restored whole or not at all; `GroupCommit` is the queue of writers under every interleaving. `Reopen` joins manifest and log: what is
opened after a crash is the database as it was at its last commit group that survived. `Durability` follows all logs and
all versions of a run: at every point of it, whatever prefixes of the manifest and of the logs a crash leaves, the database
opened again answers as the history of all writes without the groups lost.

**Iterators and tables.** `Merger`, `DbIter`, `TwoLevel` and `BlockIter` are cursors whose position in a specified
list is tracked through every mix of operations and changes of direction. `Block`, `BlockBuilder`, `Table`,
`TableBuilder`, `Bloom`, `FilterBlock`, `Comparator` and `InternalKeys` show that a table lookup is a read of the
entries added, though index keys are shortened and a filter may skip blocks; `TableFormat` and `TableBytes` open the file
that the builder wrote, from its footer on, and do the lookup on its bytes.

**Memory structures.** `SkipListNodes` interleaves one insertion with a search, store by store and load by load;
`SkipList` has the operations, and `MemTable` keeps entries in such a list. `HandleTable`, `LruModel` and `LruCache` are the reference-counted cache with its hash
table; `Circular` has the doubly linked lists that it and `SnapshotList` use.

**nanopb.** `PbModel` has descriptors, message structs, the bytes of a message and the meaning of bytes as a message.
`PbEncode` is the encoder over output streams, with its sizing passes; `PbDecode` the decoder over `PbStream`'s input
streams and substreams, with `PbCommon`'s wrapping iterator and the bitmap of required fields. Each is proved equal to
the model for all inputs, and `PbRoundTrip` proves that decoding undoes encoding. `PbPresence` says which fields are
written, of values and bytes alone; `PbUnknown` that fields of a larger descriptor are skipped to their end;
`PbSemantics` what becomes of missing, repeated and unfit fields; `PbDecoded` that whatever decodes is a struct that
can be encoded again.

## Where the code does not do what it is for

- A compaction can bring an old value back. `SetupOtherInputs` adds boundary files for the compaction's own level only.
  If a user key spans two files of the next level and only the first of them is among the inputs, a tombstone from that
  file may be dropped while the value it hides stays in the other. `RevivedValue` has a run from the empty database in
  which this happens, and `SnapshotReads.CompactionPreservesAnswersIff` says exactly when it does.
- A manual compaction can hide a value from reads. A memtable flushed while it runs goes down to the next level if it
  overlaps no file, also into a gap between the input files, and an output may then span the gap: the level is out of
  order, and its binary search misses the flushed file. `OverlappingOutput` has a run from the empty database in which
  this happens. `DatabaseSafety.FinishKeepsInvIff` says that the level invariant survives the end of a compaction
  exactly if no output overlaps a file left in the next level; `OutputCuts.EveryCutIsClearIff` says when no way of cutting
  outputs can do that; `SnapshotReads.RunKeepsInv` that it cannot happen without a flush into a gap, and
  `Gapless.GaplessOrQuietIsOrderly` that there is none where inputs have no gaps, as those of every compaction that
  `PickCompaction` starts from a file. A build with
  assertions on ends the program at `version_set.cc` line 748 instead.
- `VersionEdit::Clear` does not clear the compaction pointers, so `DecodeFrom` restores an edit exactly only if the edit
  it decodes into had none (`EditCodec.EditRoundTrip`, with a concrete input in `EditCodec.ClearKeepsPointers`). The
  database itself always decodes into a new edit.
- nanopb's encoder accepts a string that fills its buffer without a terminator, and its decoder rejects the bytes
  (`PbRoundTrip.FullStringIsLost`). `PbRoundTrip.DecodeOfEncoded` says that this is the only way in which the encoding
  of a message with static fields fails to decode.
- A nanopb message type without fields takes field number zero for its terminator: `pb_field_iter_find` stands on the
  terminator, whose tag is zero, and a bool is decoded there (`PbRoundTrip.TerminatorIsDecoded`, with the bytes 1 and 5
  in `PbRoundTrip.CutFieldIsAccepted`). The comment in `pb_decode.c` at line 938 says that such types are handled.
  `PbRoundTrip.UnknownIsSkippedIff` says that this is the only unknown field that is not skipped.
- The log reader's signs for the end of the file and for damage share the numbers 5 and 6 with stored types: a fragment
  with a valid checksum and type 5 ends the read in silence (`LogSafety.UnknownTypeIsReportedIff`). The writer never
  writes one.

## How the source's data is represented

- A user key is a real number: its position in the order of the user comparator. `Comparator.RankEmbeds` shows that the
  default bytewise order embeds into the reals. Encoded keys and their separators are modelled on bytes in
  `Comparator` and `InternalKeys`.
- A key of the memtable's list is the position of an internal key in the order of the list's comparator
  (`MemTable.PlaceEmbeds`); a map leads from it to the entry.
- Pointers into the skip list, the cache's handles and the snapshot list are indices of nodes in the order of their
  allocation; links are fields that map a node to a node, and are updated by the same stores as in the source.
- A file of a version carries its entries; tables built from entries and lookups in them are in `Table` and
  `TableBuilder`, their blocks as bytes in `Block`, `BlockBuilder` and `BlockIter`.
- Sequence numbers and file numbers are unbounded; where the code keeps them in a fixed width, encoders and decoders
  state the width.
- Hash functions are parameters; crc32c is the bit-by-bit polynomial division that the tables implement, and the log's
  theorems hold for any header scheme that tells length, type and validity (`LogFormat.Scheme`).

## Model

| member | source | states |
|---|---|---|
| Dbformat.CompareIsTotalOrder | TaskFirebaseAuthApp2/Pods/leveldb-library/db/dbformat.cc:51-67 | comparing user keys and then packed trailers is a total order: less, greater and equal are exactly "earlier user key, or same user key and larger sequence number or type", its converse, and equality |
| Dbformat.SeekKeySeparates | TaskFirebaseAuthApp2/Pods/leveldb-library/db/dbformat.cc:121-137 | within one user key, an entry is at or after the lookup key built for a snapshot exactly if it is visible at that snapshot |
| Dbformat.ReadsDeterministic | TaskFirebaseAuthApp2/Pods/leveldb-library/db/db_impl.cc:1100-1145 | a set of entries has one answer for each user key and snapshot |
| Dbformat.ReadsExists | TaskFirebaseAuthApp2/Pods/leveldb-library/db/db_impl.cc:1100-1145 | every set of entries has an answer for every user key and snapshot |
| Dbformat.LowerBound | TaskFirebaseAuthApp2/Pods/leveldb-library/db/skiplist.h:260-281 | the meaning of seeking in a sorted run: all entries before the index are before the key, all others at or after it |
| Dbformat.SeekLookupReads | TaskFirebaseAuthApp2/Pods/leveldb-library/db/memtable.cc:100-135 | one seek in a sorted run and a check of the entry found answers the read of the run |
| VersionFiles.FindFile | TaskFirebaseAuthApp2/Pods/leveldb-library/db/version_set.cc:88-106 | the binary search ends where halving ends, and in files that are in order finds the first file whose largest key is at or after the key: all files before it end before the key, all from it on do not |
| VersionFiles.SomeFileOverlapsRange | TaskFirebaseAuthApp2/Pods/leveldb-library/db/version_set.cc:122-157 | both the full scan and the binary search say whether some file overlaps the range of user keys, for open and closed ends |
| VersionGet.GetInLevel0 | TaskFirebaseAuthApp2/Pods/leveldb-library/db/version_set.cc:341-372 | searching the overlapping level-0 files newest first gives the newest visible entry of all files of the level |
| VersionGet.OneFileDecides | TaskFirebaseAuthApp2/Pods/leveldb-library/db/version_set.cc:373-388 | the file found by binary search is the only one that can hold the newest visible entry, even if the user key spans files |
| VersionGet.GetInSortedLevel | TaskFirebaseAuthApp2/Pods/leveldb-library/db/version_set.cc:373-410 | one file, found by binary search, is looked into, and if the level is in order that answers the read of the whole level |
| VersionGet.FirstLevelDecides | TaskFirebaseAuthApp2/Pods/leveldb-library/db/version_set.cc:341-420 | the first level that can answer gives the answer of all levels |
| VersionGet.Get | TaskFirebaseAuthApp2/Pods/leveldb-library/db/version_set.cc:326-421 | the lookup returns exactly the newest visible entry over the files of all levels, or that there is none |
| CompactionInputs.OutsideMonotone | TaskFirebaseAuthApp2/Pods/leveldb-library/db/version_set.cc:533-559 | growing the range never leaves more files sticking out of it, and fewer whenever a file made it grow: why the restarts end |
| CompactionInputs.GrowRange | TaskFirebaseAuthApp2/Pods/leveldb-library/db/version_set.cc:543-556 | a file sticking out of the range extends it to that file and restarts the search, and the range stays inside every overlap-closed range around the request |
| CompactionInputs.GetOverlappingInputs | TaskFirebaseAuthApp2/Pods/leveldb-library/db/version_set.cc:519-559 | ends despite the restarts, and returns the files overlapping the request, or in level 0 those overlapping the least overlap-closed range around it |
| CompactionInputs.GetRange | TaskFirebaseAuthApp2/Pods/leveldb-library/db/version_set.cc:1205-1227 | the smallest and largest keys of a list of files |
| CompactionInputs.FindSmallestBoundaryFile | TaskFirebaseAuthApp2/Pods/leveldb-library/db/version_set.cc:1343-1362 | of the files starting after the key on its user key, the one that starts first; none only if there is none |
| CompactionInputs.AddBoundaryInputs | TaskFirebaseAuthApp2/Pods/leveldb-library/db/version_set.cc:1378-1401 | appends a chain of boundary files, each the first after the one before it, until no file starts after the last one on the same user key; ends |
| CompactionInputs.ChainFresh | TaskFirebaseAuthApp2/Pods/leveldb-library/db/version_set.cc:1378-1401 | boundary files are files of the level, in order, and all after the inputs they extend |
| CompactionInputs.BoundaryLeavesNothingOlder | TaskFirebaseAuthApp2/Pods/leveldb-library/db/version_set.cc:1378-1401 | after adding boundary files nothing left behind in the level is older than an input on a shared user key |
| CompactionInputs.InputsAreDistinct | TaskFirebaseAuthApp2/Pods/leveldb-library/db/version_set.cc:1403-1462 | no file is listed twice among the inputs of either level |
| CompactionInputs.CloseInputs | TaskFirebaseAuthApp2/Pods/leveldb-library/db/version_set.cc:1403-1417 | boundary files and then all files of the next level in range: the two lists satisfy what a compaction needs |
| CompactionInputs.WiderFindsMore | TaskFirebaseAuthApp2/Pods/leveldb-library/db/version_set.cc:1434-1437 | a wider range selects at least as many files, and the same files if just as many |
| CompactionInputs.SizesAddUp | TaskFirebaseAuthApp2/Pods/leveldb-library/db/version_set.cc:60-66 | the total size of files is the sum of theirs |
| CompactionInputs.TryExpand | TaskFirebaseAuthApp2/Pods/leveldb-library/db/version_set.cc:1419-1447 | the list tried is all files of the level in the range of both lists with their boundary files; it is accepted exactly if it is longer, stays below the size limit together with the second list, and finds as many files in the next level; then it is again a good pair with the same second list and contains the old first list |
| CompactionInputs.SetupOtherInputs | TaskFirebaseAuthApp2/Pods/leveldb-library/db/version_set.cc:1403-1462 | the first list is the files started from with their boundary files, and is replaced by the list tried exactly if that is acceptable, which makes it grow, below the size limit, and leaves the second list as it was; the two lists are good inputs without duplicates |
| CompactionInputs.PickCompaction | TaskFirebaseAuthApp2/Pods/leveldb-library/db/version_set.cc:1270-1324 | the compaction starts from the first file whose largest key is after the compaction pointer, or the first file of all if there is none, in level 0 with everything in the least overlap-closed range around it |
| CompactionInputs.PickFile | TaskFirebaseAuthApp2/Pods/leveldb-library/db/version_set.cc:1292-1321 | a compaction started from one file starts from just that file, or in level 0 from the files in the least overlap-closed range around it |
| CompactionInputs.CompactRange | TaskFirebaseAuthApp2/Pods/leveldb-library/db/version_set.cc:1464-1495 | a manual compaction starts from the files overlapping the request, below level 0 from the shortest prefix of them that reaches the size limit, or all; from none exactly if nothing overlaps |
| CompactionWork.Compaction.IsBaseLevelForKey | TaskFirebaseAuthApp2/Pods/leveldb-library/db/version_set.cc:1533-1552 | asked about user keys in nondecreasing order, the advancing pointers say exactly whether no file two or more levels below contains the user key in its range |
| CompactionWork.HiddenByPredecessor | TaskFirebaseAuthApp2/Pods/leveldb-library/db/db_impl.cc:948-960 | in the merged order an entry is hidden by a newer visible one exactly if its predecessor has the same user key and is visible at the smallest snapshot |
| CompactionWork.KeptSeqIsKept | TaskFirebaseAuthApp2/Pods/leveldb-library/db/db_impl.cc:906-998 | the entries the loop keeps are exactly those that the drop rule, stated on sets, keeps |
| CompactionWork.ShouldDrop | TaskFirebaseAuthApp2/Pods/leveldb-library/db/db_impl.cc:930-971 | an entry is dropped exactly if a newer one of its user key is visible at the smallest snapshot, or if it is a tombstone visible there whose user key no file two or more levels below covers |
| CompactionWork.DoCompactionWork | TaskFirebaseAuthApp2/Pods/leveldb-library/db/db_impl.cc:878-1013 | the outputs, taken together, are sorted: of two of their entries for one user key the newer is above the smallest snapshot, none is a tombstone at or below it that no deeper file covers, and what they lack of the input is replaced or such a tombstone; no output is empty, however they are cut |
| CompactionWork.OutputsAreNeeded | TaskFirebaseAuthApp2/Pods/leveldb-library/db/db_impl.cc:950-971 | what the drop rule leaves holds no replaced entry and no obsolete tombstone, and lacks nothing else |
| DropRule.DroppedNewest | TaskFirebaseAuthApp2/Pods/leveldb-library/db/db_impl.cc:955-971 | a dropped entry that was the newest visible one is an obsolete tombstone, and the kept input has nothing visible there |
| DropRule.KeptIff | TaskFirebaseAuthApp2/Pods/leveldb-library/db/db_impl.cc:950-971 | which entries a compaction keeps, entry by entry, and that of two kept ones for one user key the newer is above the smallest snapshot |
| DropRule.ReadPreserved | TaskFirebaseAuthApp2/Pods/leveldb-library/db/db_impl.cc:955-971 | if no tombstone is uncovered, every snapshot from the smallest on reads the same answer |
| DropRule.UncoveredChangesAnswer | TaskFirebaseAuthApp2/Pods/leveldb-library/db/db_impl.cc:955-971 | an uncovered tombstone changes the answer at the smallest snapshot |
| DropRule.AnswersPreservedIff | TaskFirebaseAuthApp2/Pods/leveldb-library/db/db_impl.cc:955-971 | exactly when dropping keeps every answer for a user key: if and only if no dropped tombstone has a value left out of the compaction as its next older entry |
| LevelChange.UntouchedIsSeparated | TaskFirebaseAuthApp2/Pods/leveldb-library/db/version_set.cc:1410-1417 | a file of the next level outside the range of the first inputs lies entirely before or after all that is compacted |
| LevelChange.LeftBehindIsNewer | TaskFirebaseAuthApp2/Pods/leveldb-library/db/version_set.cc:1378-1401 | what is left of the level is newer than everything compacted from it |
| LevelChange.NextLevelDisjoint | TaskFirebaseAuthApp2/Pods/leveldb-library/db/version_set.cc:694-755 | the next level stays sorted and disjoint if and only if no output overlaps a file left in it |
| LevelChange.ReplaceKeepsNewer | TaskFirebaseAuthApp2/Pods/leveldb-library/db/version_set.cc:694-755 | shallower files stay newer than deeper ones when outputs replace inputs |
| LevelChange.ReplaceKeepsGood | TaskFirebaseAuthApp2/Pods/leveldb-library/db/version_set.cc:694-755 | an exchange of inputs for outputs keeps the level invariant if and only if no output overlaps a file left in the next level |
| LevelChange.PlaceKeepsGood | TaskFirebaseAuthApp2/Pods/leveldb-library/db/version_set.cc:491-517 | a flushed memtable put where nothing above or at the level overlaps it keeps the level invariant |
| LevelChange.PickLevelForMemTableOutput | TaskFirebaseAuthApp2/Pods/leveldb-library/db/version_set.cc:491-517 | the level chosen has no overlap down to it, is at most two, and is not deeper for one of the three reasons the code checks |
| DatabaseSafety.DataUnique | TaskFirebaseAuthApp2/Pods/leveldb-library/db/db_impl.cc:1224-1231 | no two entries of a database have the same user key and sequence number |
| DatabaseSafety.InitInv | TaskFirebaseAuthApp2/Pods/leveldb-library/db/db_impl.cc:182-212 | a new database satisfies the invariant |
| DatabaseSafety.WriteKeepsInv | TaskFirebaseAuthApp2/Pods/leveldb-library/db/db_impl.cc:1206-1245 | a write keeps it |
| DatabaseSafety.FlushKeepsInv | TaskFirebaseAuthApp2/Pods/leveldb-library/db/db_impl.cc:491-566 | a flush to the chosen level keeps it, also in the middle of a compaction |
| DatabaseSafety.FlushKeepsJob | TaskFirebaseAuthApp2/Pods/leveldb-library/db/db_impl.cc:907-918 | a file flushed beside a compaction is newer than the first inputs left, overlaps no input at the next level, and lies below no key of the inputs, so the version the compaction looks at may stay the old one |
| DatabaseSafety.MoveKeepsInv | TaskFirebaseAuthApp2/Pods/leveldb-library/db/db_impl.cc:718-736 | a trivial move keeps it |
| DatabaseSafety.StartKeepsInv | TaskFirebaseAuthApp2/Pods/leveldb-library/db/db_impl.cc:737-745 | starting a compaction keeps it |
| DatabaseSafety.FinishKeepsInvIff | TaskFirebaseAuthApp2/Pods/leveldb-library/db/db_impl.cc:860-876 | finishing a compaction keeps it if and only if no output overlaps a file left in the next level |
| DatabaseSafety.ReplacedNumbers | TaskFirebaseAuthApp2/Pods/leveldb-library/db/version_set.cc:1525-1531 | file numbers stay unique, and no number is used again at a level it was recorded at |
| DatabaseSafety.ReplacedEntries | TaskFirebaseAuthApp2/Pods/leveldb-library/db/db_impl.cc:860-876 | the entries of the new levels are the old ones with the inputs' exchanged for the outputs' |
| DatabaseSafety.NextKeepsInv | TaskFirebaseAuthApp2/Pods/leveldb-library/db/db_impl.cc:688-767 | every step, apart from the end of a compaction with such outputs, keeps the invariant, and that one does not: levels from 1 on sorted and disjoint, deeper entries older for each user key, level-0 files older by number, unique entries and file numbers, inputs of a running compaction fit |
| DatabaseSafety.OrderlyStepKeeps | TaskFirebaseAuthApp2/Pods/leveldb-library/db/db_impl.cc:688-767 | every step but a flush into a gap leaves no file in the range of the inputs of a running compaction, and so leaves the way free to its end |
| OutputCuts.EveryCutIsClearIff | TaskFirebaseAuthApp2/Pods/leveldb-library/db/db_impl.cc:920-991 | told from the state before a compaction ends: every way of cutting its outputs keeps the invariant if and only if no file left in the next level lies between two entries that it keeps |
| SnapshotReads.WriteInvisible | TaskFirebaseAuthApp2/Pods/leveldb-library/db/db_impl.cc:1206-1245 | a write changes no answer of an earlier snapshot |
| SnapshotReads.OlderEntryIsLeftOut | TaskFirebaseAuthApp2/Pods/leveldb-library/db/version_set.cc:1403-1462 | the next older entry of a dropped tombstone can only be in a left-out file of the next level, and the tombstone then comes from the second inputs |
| SnapshotReads.CompactionPreservesAnswersIff | TaskFirebaseAuthApp2/Pods/leveldb-library/db/db_impl.cc:878-1010 | exactly when a finished compaction keeps every answer for a user key at all snapshots from the smallest on: if and only if no dropped tombstone shadows a value in a left-out file of the next level |
| SnapshotReads.UnsharedIsSafe | TaskFirebaseAuthApp2/Pods/leveldb-library/db/version_set.cc:1410-1417 | a compaction is safe if no left-out file of the next level shares a user key with the second inputs |
| SnapshotReads.StepKeepsAnswers | TaskFirebaseAuthApp2/Pods/leveldb-library/db/db_impl.cc:688-767 | no step other than such a compaction changes any answer a live snapshot can observe |
| SnapshotReads.RunKeepsInv | TaskFirebaseAuthApp2/Pods/leveldb-library/db/db_impl.cc:688-767 | over every run from the empty database, whatever compactions are started and however their outputs are cut, the invariant holds and outputs overlap no file left beside them, as long as no memtable is flushed into a gap between the inputs of a running compaction (OrderlyRun) |
| SnapshotReads.ClearRunKeepsInv | TaskFirebaseAuthApp2/Pods/leveldb-library/db/db_impl.cc:688-767 | with such flushes too, the invariant holds along every run up to the first output that overlaps a file left beside it |
| SnapshotReads.SnapshotIsStable | TaskFirebaseAuthApp2/Pods/leveldb-library/db/db_impl.cc:1166-1175 | over every such run in which no compaction that finishes drops a tombstone shadowing a left-out value (every step is a SafeStep), a snapshot sees the same answers for as long as it is held |
| SnapshotReads.JobKeyKeepsBase | TaskFirebaseAuthApp2/Pods/leveldb-library/db/version_set.cc:1533-1552 | for the keys of a running compaction the version it was started in and the current one agree on whether anything lies deeper |
| SnapshotReads.NothingSuperfluousStays | TaskFirebaseAuthApp2/Pods/leveldb-library/db/db_impl.cc:950-1013 | a finished compaction has written no entry that a newer one replaces at its smallest snapshot, and no tombstone visible there without a deeper file of the new version that covers its user key |
| Gapless.PickedIsGapless | TaskFirebaseAuthApp2/Pods/leveldb-library/db/version_set.cc:1270-1324 | what PickCompaction starts from covers every user key between its first and its last, in level 0 by the leastness of the range selected |
| Gapless.SetupIsGapless | TaskFirebaseAuthApp2/Pods/leveldb-library/db/version_set.cc:1403-1462 | boundary files, the files of the next level and the expansion leave no gap between the inputs |
| Gapless.GaplessFinishesClear | TaskFirebaseAuthApp2/Pods/leveldb-library/db/db_impl.cc:878-1048 | a compaction whose inputs have no gap never has an output overlapping a file flushed beside it |
| Gapless.GaplessOrQuietIsOrderly | TaskFirebaseAuthApp2/Pods/leveldb-library/db/db_impl.cc:907-918 | over every run in which each compaction has inputs without gaps or no memtable is flushed while it runs, the invariant holds all along |
| Gapless.GaplessRunKeepsInv | TaskFirebaseAuthApp2/Pods/leveldb-library/db/db_impl.cc:688-767 | over every run whose compactions start from inputs without gaps, the invariant holds all along, whatever is flushed beside them |
| OverlappingOutput.CompactionHidesValue | TaskFirebaseAuthApp2/Pods/leveldb-library/db/db_impl.cc:907-918 | a concrete run of seventeen steps from the empty database after which level 2 is out of order and the lookup of a value that the database holds finds nothing: a memtable flushed during a manual compaction went into a gap between its inputs |
| RevivedValue.RunFromNothing | TaskFirebaseAuthApp2/Pods/leveldb-library/db/db_impl.cc:688-767 | a concrete run of fifteen steps from the empty database: writes, flushes to the levels the code picks, a compaction that a snapshot makes keep a tombstone and its value in two files, and a second compaction of the first of them only |
| RevivedValue.FinishesThere | TaskFirebaseAuthApp2/Pods/leveldb-library/db/db_impl.cc:878-1010 | the last step of that run, a compaction as the code performs it |
| RevivedValue.CompactionRevivesValue | TaskFirebaseAuthApp2/Pods/leveldb-library/db/version_set.cc:1403-1417 | that step turns "not found" into the old value: boundary files are added for the first level only |
| DbImpl.LookupAll | TaskFirebaseAuthApp2/Pods/leveldb-library/db/db_impl.cc:1100-1145 | memtable, then immutable memtable, then files: exactly the newest visible entry over all of them |
| DbImpl.InsertInto | TaskFirebaseAuthApp2/Pods/leveldb-library/db/write_batch.cc:117-137 | a batch enters the sorted memtable with consecutive sequence numbers |
| DbImpl.TablesAreFiles | TaskFirebaseAuthApp2/Pods/leveldb-library/db/db_impl.cc:811-858 | the tables built from the runs of a compaction are well-formed, sorted and disjoint files with the same entries |
| DbObject.DBImpl.Get | TaskFirebaseAuthApp2/Pods/leveldb-library/db/db_impl.cc:1100-1145 | the answer is that of the newest entry visible at the snapshot, or at the last sequence number |
| DbObject.DBImpl.Write | TaskFirebaseAuthApp2/Pods/leveldb-library/db/db_impl.cc:1223-1236 | the batch is in the memtable with the next sequence numbers and visible at once: the write step of the state machine |
| DbObject.DBImpl.SwitchMemTable | TaskFirebaseAuthApp2/Pods/leveldb-library/db/db_impl.cc:1346-1369 | a full memtable becomes immutable and a new log is begun: the switch step |
| DbObject.DBImpl.CompactMemTable | TaskFirebaseAuthApp2/Pods/leveldb-library/db/db_impl.cc:535-566 | the immutable memtable, whether or not a compaction is running, becomes a table at the level picked for it, recorded in the manifest: the flush step; unless it goes into a gap the way stays free to the end of the compaction |
| DbObject.DBImpl.BackgroundCompaction | TaskFirebaseAuthApp2/Pods/leveldb-library/db/db_impl.cc:688-767 | completes the inputs as SetupOtherInputs does, and moves a file down if and only if the request is not manual, the inputs are that file and none of the next level, and the files of the level after next in its range are not larger together than the limit; otherwise it starts a compaction with the inputs, which have no gap if the start has none; the compaction pointer of the level, and no other, becomes the largest key of the first inputs |
| DbObject.SetupInputs | TaskFirebaseAuthApp2/Pods/leveldb-library/db/version_set.cc:1403-1463 | completes the inputs, tells their largest key and how many bytes of the level after next their whole range overlaps |
| DbObject.DBImpl.StartCompaction | TaskFirebaseAuthApp2/Pods/leveldb-library/db/db_impl.cc:878-893 | the job respects the oldest live snapshot, or the last sequence number if there is none, and remembers the pointer |
| DbObject.PointerMoves | TaskFirebaseAuthApp2/Pods/leveldb-library/db/version_set.cc:1457-1462 | the edit of a compaction or a move sets the pointer of its level to the key given, and no other |
| DbObject.DBImpl.AutomaticCompaction | TaskFirebaseAuthApp2/Pods/leveldb-library/db/version_set.cc:1270-1324 | without a request, starts from the next file after the pointer or from one with too many seeks, completes it and moves or starts by the same condition, with inputs that have no gap |
| DbObject.DBImpl.InstallCompactionResults | TaskFirebaseAuthApp2/Pods/leveldb-library/db/db_impl.cc:860-876 | one edit exchanges the inputs for the outputs one level down, in the version and in the manifest |
| DbObject.DBImpl.FinishCompaction | TaskFirebaseAuthApp2/Pods/leveldb-library/db/db_impl.cc:878-1048 | merges the inputs, drops by the rule, builds and numbers the outputs and installs them: the finish step, wherever outputs are cut; the database stays valid exactly if no output overlaps a file left in the next level, and so whenever no such file is in the range of the inputs; the pointer of the level is the one from the start |
| DbObject.DBImpl.GetSnapshot | TaskFirebaseAuthApp2/Pods/leveldb-library/db/db_impl.cc:1166-1169 | a snapshot at the last sequence number joins the live ones |
| DbObject.DBImpl.ReleaseSnapshot | TaskFirebaseAuthApp2/Pods/leveldb-library/db/db_impl.cc:1171-1175 | the snapshot leaves the live ones |
| SnapshotList.SnapshotList.New | TaskFirebaseAuthApp2/Pods/leveldb-library/db/snapshot.h:57-72 | the snapshot is linked in at the end of the circular list; the numbers stay in order |
| SnapshotList.SnapshotList.Delete | TaskFirebaseAuthApp2/Pods/leveldb-library/db/snapshot.h:79-88 | the snapshot is unlinked from wherever it is; all others stay in order |
| SnapshotList.SnapshotList.Oldest | TaskFirebaseAuthApp2/Pods/leveldb-library/db/snapshot.h:47-50 | the first node has the smallest number of all live snapshots |
| VersionBuilder.SortedFilesUnique | TaskFirebaseAuthApp2/Pods/leveldb-library/db/version_set.cc:591-604 | a list in the order of BySmallestKey is determined by its members |
| VersionBuilder.UpperBound | TaskFirebaseAuthApp2/Pods/leveldb-library/db/version_set.cc:708-714 | the first base file after the one added |
| VersionBuilder.MergeLevel | TaskFirebaseAuthApp2/Pods/leveldb-library/db/version_set.cc:700-722 | base and added files merged in order, the deleted ones left out |
| VersionBuilder.SaveLevel | TaskFirebaseAuthApp2/Pods/leveldb-library/db/version_set.cc:694-739 | saving a level gives exactly the list the builder's state stands for |
| VersionEdits.Builder.Apply | TaskFirebaseAuthApp2/Pods/leveldb-library/db/version_set.cc:650-692 | the builder stands for the version with one more edit installed |
| VersionEdits.Builder.SaveTo | TaskFirebaseAuthApp2/Pods/leveldb-library/db/version_set.cc:694-739 | what is saved is the version the builder stands for |
| VersionEdits.SnapshotInstalls | TaskFirebaseAuthApp2/Pods/leveldb-library/db/version_set.cc:1088-1116 | the one edit of a manifest snapshot installs exactly the version it was made from |
| VersionEdits.SnapshotPointers | TaskFirebaseAuthApp2/Pods/leveldb-library/db/version_set.cc:1094-1102 | and exactly its compaction pointers |
| VersionEdits.PointersTwice | TaskFirebaseAuthApp2/Pods/leveldb-library/db/version_set.cc:653-657 | applying compaction pointers a second time changes nothing more |
| Manifest.LogAndApplyAccounts | TaskFirebaseAuthApp2/Pods/leveldb-library/db/version_set.cc:801-884 | right after an edit is logged, replaying the manifest gives the installed version, its log numbers, exactly the last sequence number, and as next file number the one after the recorded next number, above all numbers recorded; with a new manifest, or one that has kept up with them, the compaction pointers too |
| Manifest.LogAndApplyKeeps | TaskFirebaseAuthApp2/Pods/leveldb-library/db/version_set.cc:801-884 | logging and applying an edit keeps manifest and version set consistent, and leaves the recovered sequence and next file number exact |
| Manifest.VersionSet.LogAndApply | TaskFirebaseAuthApp2/Pods/leveldb-library/db/version_set.cc:801-884 | completes the edit, installs the version, and writes the edit, after a snapshot of the old version if the manifest is new; from the manifest written, recovery restores version and counters exactly |
| Manifest.VersionSet.Recover | TaskFirebaseAuthApp2/Pods/leveldb-library/db/version_set.cc:886-1011 | one builder over all edits of a manifest ends with the version, pointers, log numbers and last sequence they record, or with the status the code returns |
| Manifest.RecoveredConsistent | TaskFirebaseAuthApp2/Pods/leveldb-library/db/version_set.cc:990-1008 | what is recovered is consistent with the manifest it came from |
| Manifest.NewManifestPointers | TaskFirebaseAuthApp2/Pods/leveldb-library/db/version_set.cc:1094-1102 | a new manifest restores the compaction pointers |
| Manifest.VersionSet.NewFileNumber | TaskFirebaseAuthApp2/Pods/leveldb-library/db/version_set.h:194-194 | each file number is handed out once |
| Manifest.VersionSet.MarkFileNumberUsed | TaskFirebaseAuthApp2/Pods/leveldb-library/db/version_set.cc:1044-1048 | the next file number is above the number found in use, never goes back, does not move if it was above already, and keeps the version set valid |
| StepEdits.FlushInstalls | TaskFirebaseAuthApp2/Pods/leveldb-library/db/db_impl.cc:491-533 | the edit of a flush installs the new file at its level |
| StepEdits.CompactionInstalls | TaskFirebaseAuthApp2/Pods/leveldb-library/db/db_impl.cc:860-876 | the edit of a compaction exchanges the inputs for the outputs |
| StepEdits.CompactionIsNew | TaskFirebaseAuthApp2/Pods/leveldb-library/db/db_impl.cc:718-736 | the edits the database makes never add a (level, number) pair a second time |
| EditCodec.FieldRoundTrip | TaskFirebaseAuthApp2/Pods/leveldb-library/db/version_edit.cc:41-205 | every tagged field decodes to itself, whatever follows it |
| EditCodec.FieldsRebuild | TaskFirebaseAuthApp2/Pods/leveldb-library/db/version_edit.cc:107-205 | the fields of an edit, in the order they are written, make the edit again |
| EditCodec.EditRoundTrip | TaskFirebaseAuthApp2/Pods/leveldb-library/db/version_edit.cc:26-205 | decoding the encoding of an edit succeeds and gives the edit back, if and only if the edit decoded into had no compaction pointers |
| EditCodec.MalformedField | TaskFirebaseAuthApp2/Pods/leveldb-library/db/version_edit.cc:110-200 | a field that is cut off, a tag that does not exist and a level that does not are each refused, with what the code says of them |
| EditCodec.StopsAtMalformed | TaskFirebaseAuthApp2/Pods/leveldb-library/db/version_edit.cc:106-205 | decoding stops at the first field that cannot be read, with its message, and keeps the fields before |
| EditCodec.KnownFields | TaskFirebaseAuthApp2/Pods/leveldb-library/db/version_edit.cc:41-83 | the bytes of one field of each kind |
| EditCodec.ClearKeepsPointers | TaskFirebaseAuthApp2/Pods/leveldb-library/db/version_edit.cc:26-39 | decoding an empty edit into one that has a compaction pointer leaves that pointer in it |
| EditCodec.VersionEdit.DecodeFrom | TaskFirebaseAuthApp2/Pods/leveldb-library/db/version_edit.cc:107-205 | reads fields into a cleared edit until the input ends or a field cannot be read, with the message the code gives |
| EditCodec.VersionEdit.EncodeTo | TaskFirebaseAuthApp2/Pods/leveldb-library/db/version_edit.cc:41-85 | appends exactly the encoding of the edit's fields |
| ManifestBytes.CodedRoundTrip | TaskFirebaseAuthApp2/Pods/leveldb-library/db/version_edit.cc:41-205 | an edit with keys as byte strings, joined with the table files on disk, is the edit of the version set again |
| ManifestBytes.RecordRoundTrip | TaskFirebaseAuthApp2/Pods/leveldb-library/db/version_set.cc:939-969 | the record of an edit, its deleted files in any order, decodes into a new edit as that edit |
| ManifestBytes.ManifestRestoresInstalled | TaskFirebaseAuthApp2/Pods/leveldb-library/db/version_set.cc:886-1011 | reading the bytes of the manifest file, decoding its records and replaying them, right after LogAndApply, gives the installed version, log numbers, sequence number and next file number |
| ManifestBytes.CrashLeavesInstalledVersion | TaskFirebaseAuthApp2/Pods/leveldb-library/db/version_set.cc:886-1011 | whatever prefix of the manifest's bytes a crash leaves, its edits lead to the version that was installed with the last edit held in full |
| Reopen.PrefixReads | TaskFirebaseAuthApp2/Pods/leveldb-library/db/db_impl.cc:1100-1145 | reading a prefix of the history of writes is reading the whole of it at a snapshot within the prefix |
| Reopen.SurvivingData | TaskFirebaseAuthApp2/Pods/leveldb-library/db/db_impl.cc:412-453 | the files and the first commit groups of the log hold exactly what was written up to the last sequence number of these groups |
| Reopen.ReopenedData | TaskFirebaseAuthApp2/Pods/leveldb-library/db/db_impl.cc:288-377 | after a crash that leaves any prefix of the log of the memtable, without an immutable memtable, and of the manifest any prefix that still leads to the version the database ran on, the database opened from them holds, entry for entry, what the crashed one had written up to the last sequence number of the commit groups left in full |
| Reopen.ReopenedReads | TaskFirebaseAuthApp2/Pods/leveldb-library/db/db_impl.cc:288-377 | and it answers every read at every snapshot as the database that crashed did at that sequence number, or at the snapshot if that is smaller |
| Durability.WorldNextKeepsInv | TaskFirebaseAuthApp2/Pods/leveldb-library/db/db_impl.cc:535-566 | every write, memtable switch, flush, move and compaction, none of them a flush into a gap or a drop that uncovers a value in files, keeps this: the logs hold all commit groups in order, the memtables hold what the last logs do, and every version ever installed answers as the logs before its log number |
| Durability.FilesKeepAnswers | TaskFirebaseAuthApp2/Pods/leveldb-library/db/db_impl.cc:878-1048 | moves and compactions change no answer of the files alone, whatever the memtables hold |
| Durability.LogsAreReplayed | TaskFirebaseAuthApp2/Pods/leveldb-library/db/db_impl.cc:340-366 | replaying, in order, what is left of the logs from the recorded number on restores exactly the commit groups each holds in full |
| Durability.FlushedLogsAreSkipped | TaskFirebaseAuthApp2/Pods/leveldb-library/db/db_impl.cc:329-341 | logs before the recorded number are not replayed, deleted or not |
| Durability.LoggedEditDescribes | TaskFirebaseAuthApp2/Pods/leveldb-library/db/version_set.cc:774-865 | wherever the manifest ends, its edits lead to a version that was installed, its log number and its sequence number; logging an edit keeps that so |
| Durability.ReopenedAnswers | TaskFirebaseAuthApp2/Pods/leveldb-library/db/db_impl.cc:280-374 | with any number of logs, whatever prefix of the manifest and of each log a crash leaves, whether or not the edits of flushes, moves and compactions are lost, the database opened answers every read as the history of all writes without the commit groups no longer in full in a log that is replayed |
| Durability.EveryCrashIsSurvived | TaskFirebaseAuthApp2/Pods/leveldb-library/db/db_impl.cc:280-374 | that holds at every point of every run from the empty database |
| Durability.SurvivorsArePrefix | TaskFirebaseAuthApp2/Pods/leveldb-library/db/db_impl.cc:340-366 | if all logs but the last are whole, what survives is the history up to some sequence number |
| LogSafety.UnknownTypeIsReportedIff | TaskFirebaseAuthApp2/Pods/leveldb-library/db/log_reader.cc:147-170 | a fragment of a type that is never written is reported and skipped, if and only if its type is not the reader's own sign for the end of the file, nor that for damage where no record has begun |
| DbIter.HeadsAreReads | TaskFirebaseAuthApp2/Pods/leveldb-library/db/db_iter.cc:168-198 | the list of visible pairs is what reads find: one pair for each user key that reads as a value, in increasing order |
| DbIter.DBIter.FindNextUserEntry | TaskFirebaseAuthApp2/Pods/leveldb-library/db/db_iter.cc:168-198 | stops at the first visible value past the user key skipped, amid tombstones and invisible entries; ends |
| DbIter.DBIter.FindPrevUserEntry | TaskFirebaseAuthApp2/Pods/leveldb-library/db/db_iter.cc:227-267 | stops at the last visible value at or before the place scanned from; ends |
| DbIter.DBIter.Seek | TaskFirebaseAuthApp2/Pods/leveldb-library/db/db_iter.cc:269-281 | lands on the first visible pair at or after the target |
| DbIter.DBIter.SeekToFirst | TaskFirebaseAuthApp2/Pods/leveldb-library/db/db_iter.cc:283-292 | lands on the first visible pair |
| DbIter.DBIter.SeekToLast | TaskFirebaseAuthApp2/Pods/leveldb-library/db/db_iter.cc:294-299 | lands on the last visible pair |
| DbIter.DBIter.Next | TaskFirebaseAuthApp2/Pods/leveldb-library/db/db_iter.cc:141-166 | the next visible pair, also after moving backward |
| DbIter.DBIter.Prev | TaskFirebaseAuthApp2/Pods/leveldb-library/db/db_iter.cc:200-225 | the previous visible pair, also after moving forward |
| DbIter.DBIter.Current | TaskFirebaseAuthApp2/Pods/leveldb-library/db/db_iter.cc:64-71 | key and value are those of the visible pair at the position |
| Merger.SeekCuts | TaskFirebaseAuthApp2/Pods/leveldb-library/table/merger.cc:47-53 | seeking every child cuts all lists where the merged list is cut |
| Merger.SwitchForward | TaskFirebaseAuthApp2/Pods/leveldb-library/table/merger.cc:62-75 | after turning forward every other child stands on its first entry after the current key |
| Merger.SwitchReverse | TaskFirebaseAuthApp2/Pods/leveldb-library/table/merger.cc:88-104 | after turning backward every other child stands on its last entry before the current key |
| Merger.MergingIterator.Seek | TaskFirebaseAuthApp2/Pods/leveldb-library/table/merger.cc:47-53 | stands on the first entry of the sorted union at or after the target |
| Merger.MergingIterator.SeekToFirst | TaskFirebaseAuthApp2/Pods/leveldb-library/table/merger.cc:31-37 | stands on the first entry of the sorted union |
| Merger.MergingIterator.SeekToLast | TaskFirebaseAuthApp2/Pods/leveldb-library/table/merger.cc:39-45 | stands on the last entry of the sorted union |
| Merger.MergingIterator.Next | TaskFirebaseAuthApp2/Pods/leveldb-library/table/merger.cc:55-79 | one entry on in the sorted union, in either direction before |
| Merger.MergingIterator.Prev | TaskFirebaseAuthApp2/Pods/leveldb-library/table/merger.cc:81-108 | one entry back in the sorted union, in either direction before |
| TwoLevel.SeekIsSeek | TaskFirebaseAuthApp2/Pods/leveldb-library/table/two_level_iterator.cc:82-87 | seeking the index and then a block is seeking the concatenation of the blocks |
| TwoLevel.TwoLevelIterator.Seek | TaskFirebaseAuthApp2/Pods/leveldb-library/table/two_level_iterator.cc:82-87 | stands on the first entry of the concatenation at or after the target |
| TwoLevel.TwoLevelIterator.Next | TaskFirebaseAuthApp2/Pods/leveldb-library/table/two_level_iterator.cc:103-107 | one entry on in the concatenation, over empty blocks |
| TwoLevel.TwoLevelIterator.Current | TaskFirebaseAuthApp2/Pods/leveldb-library/table/two_level_iterator.cc:31-39 | key and value are those of the entry of the concatenation at the position |
| TwoLevel.TwoLevelIterator.Prev | TaskFirebaseAuthApp2/Pods/leveldb-library/table/two_level_iterator.cc:109-113 | one entry back in the concatenation, over empty blocks |
| TwoLevel.TwoLevelIterator.SkipEmptyDataBlocksForward | TaskFirebaseAuthApp2/Pods/leveldb-library/table/two_level_iterator.cc:115-126 | lands on the entry sought, however many blocks are empty |
| TwoLevel.TwoLevelIterator.SkipEmptyDataBlocksBackward | TaskFirebaseAuthApp2/Pods/leveldb-library/table/two_level_iterator.cc:128-139 | lands on the entry before, however many blocks are empty |
| Block.EntryRoundTrip | TaskFirebaseAuthApp2/Pods/leveldb-library/table/block.cc:54-76 | an encoded entry decodes to its shared length, key suffix and value, in the one-byte and in the varint form |
| BlockBuilder.BlockBuilder.Add | TaskFirebaseAuthApp2/Pods/leveldb-library/table/block_builder.cc:72-106 | the pair is laid out after the others, prefix-compressed against the last key, as a restart point every interval entries |
| BlockBuilder.BlockBuilder.Finish | TaskFirebaseAuthApp2/Pods/leveldb-library/table/block_builder.cc:62-70 | the block holds all pairs added, the offsets of the restart points and their number |
| BlockIter.BlockIsReadable | TaskFirebaseAuthApp2/Pods/leveldb-library/table/block.cc:19-39 | every entry and restart point of a finished block can be read back |
| BlockIter.ParseEntry | TaskFirebaseAuthApp2/Pods/leveldb-library/table/block.cc:224-251 | an entry's key and value are those added |
| BlockIter.FindRestart | TaskFirebaseAuthApp2/Pods/leveldb-library/table/block.cc:163-190 | the binary search finds a restart point before the target, or the first one |
| BlockIter.Iter.Seek | TaskFirebaseAuthApp2/Pods/leveldb-library/table/block.cc:163-201 | stands on the first pair at or after the target |
| BlockIter.Iter.Next | TaskFirebaseAuthApp2/Pods/leveldb-library/table/block.cc:137-140 | the next pair added |
| BlockIter.Iter.Prev | TaskFirebaseAuthApp2/Pods/leveldb-library/table/block.cc:142-161 | the pair before, so it undoes Next |
| BlockIter.Iter.SeekToFirst | TaskFirebaseAuthApp2/Pods/leveldb-library/table/block.cc:203-206 | the first pair added |
| BlockIter.Iter.Current | TaskFirebaseAuthApp2/Pods/leveldb-library/table/block.cc:126-135 | key and value are those of the pair at the position; the iterator is valid exactly if it stands on a pair |
| BlockIter.Iter.SeekToLast | TaskFirebaseAuthApp2/Pods/leveldb-library/table/block.cc:208-213 | the last pair added |
| BlockIter.BytewiseIsSorted | TaskFirebaseAuthApp2/Pods/leveldb-library/table/block_builder.cc:72-78 | keys added in increasing bytewise order are what Seek's binary search needs |
| Table.InternalGet | TaskFirebaseAuthApp2/Pods/leveldb-library/table/table.cc:216-244 | for the lookup key of any user key and snapshot, what is handed to the caller answers the read of all entries of the table; for any key, it is an entry of the table at or after that key |
| Table.InternalGetReads | TaskFirebaseAuthApp2/Pods/leveldb-library/table/table.cc:216-244 | a lookup answers the read of the table: the newest visible entry if the table holds one, and nothing of that user key otherwise, though index keys are shortened and the filter may skip the block |
| Table.VisibleIsReported | TaskFirebaseAuthApp2/Pods/leveldb-library/table/table.cc:216-244 | if any visible entry of the user key is in the table, one at least as new is reported |
| Table.LaterBlocksHaveOtherKeys | TaskFirebaseAuthApp2/Pods/leveldb-library/table/table.cc:216-244 | a block that ends before the key sought, found by its separator, is followed only by blocks of other user keys |
| TableBuilder.TableBuilder.Add | TaskFirebaseAuthApp2/Pods/leveldb-library/table/table_builder.cc:94-123 | the entry is added after all others, the pending index entry first |
| TableBuilder.TableBuilder.AddIndexEntry | TaskFirebaseAuthApp2/Pods/leveldb-library/table/table_builder.cc:102-109 | the index key written for a finished block separates its last key from the next key |
| TableBuilder.TableBuilder.Flush | TaskFirebaseAuthApp2/Pods/leveldb-library/table/table_builder.cc:125-139 | the open block is written, with its trailer, where its handle says; its index entry waits for the next key |
| TableBuilder.TableBuilder.Finish | TaskFirebaseAuthApp2/Pods/leveldb-library/table/table_builder.cc:198-253 | the table holds exactly the entries added and is one whose lookups are reads, if its filter block is shorter than four gigabytes; and the file, where everything fits the fields of the format, is a file of this table, whose footer leads to its blocks |
| Bloom.FindMatch | TaskFirebaseAuthApp2/Pods/leveldb-library/util/bloom.cc:56-80 | the loop over the probes says whether the key may match |
| Bloom.AddKey | TaskFirebaseAuthApp2/Pods/leveldb-library/util/bloom.cc:42-52 | sets exactly the bits of the key's probes |
| Bloom.CreateFilter | TaskFirebaseAuthApp2/Pods/leveldb-library/util/bloom.cc:28-54 | appends a filter of the size for the number of keys, with a bit set exactly where some key has a probe, and the number of probes |
| Bloom.FilterMatchesKeys | TaskFirebaseAuthApp2/Pods/leveldb-library/util/bloom.cc:28-80 | every key matches the filter it went into |
| Bloom.MatchesIffCovered | TaskFirebaseAuthApp2/Pods/leveldb-library/util/bloom.cc:28-80 | exactly which keys match a filter: those each of whose probes is at the place of some probe of some key that went into it |
| Bloom.ProbeIs | TaskFirebaseAuthApp2/Pods/leveldb-library/util/bloom.cc:43-50 | the j-th probe is the hash value plus j times its rotation by 17 bits, in 32 bits |
| Bloom.ProbesAre | TaskFirebaseAuthApp2/Pods/leveldb-library/util/bloom.cc:20-24 | 69 hundredths of the bits per key, rounded down, at least 1 and at most 30 |
| FilterBlock.FilterBlockBuilder.StartBlock | TaskFirebaseAuthApp2/Pods/leveldb-library/table/filter_block.cc:21-27 | as many filters as two-kilobyte ranges before the block; pending keys go under the filter of their own range |
| FilterBlock.FilterBlockBuilder.GenerateFilter | TaskFirebaseAuthApp2/Pods/leveldb-library/table/filter_block.cc:51-75 | the pending keys go into one more filter, or an empty one |
| FilterBlock.FilterBlockBuilder.Finish | TaskFirebaseAuthApp2/Pods/leveldb-library/table/filter_block.cc:35-49 | the filters, their offsets, where those begin, and the base |
| FilterBlock.FiledMayMatch | TaskFirebaseAuthApp2/Pods/leveldb-library/table/filter_block.cc:77-104 | a filter block never hides a key filed for a block at the offset asked about |
| FilterBlock.MayMatchIff | TaskFirebaseAuthApp2/Pods/leveldb-library/table/filter_block.cc:77-104 | exactly what a finished block says: maybe, if no filter covers the offset, and otherwise what the filter of its two-kilobyte range says |
| Comparator.RankEmbeds | TaskFirebaseAuthApp2/Pods/leveldb-library/util/comparator.cc:25-27 | the bytewise order embeds into the reals, so a user key may stand for its position |
| Comparator.FindShortestSeparator | TaskFirebaseAuthApp2/Pods/leveldb-library/util/comparator.cc:29-50 | the string from start up to limit that the code forms: cut after the first difference with that byte raised, if it stays below the limit |
| Comparator.FindShortSuccessor | TaskFirebaseAuthApp2/Pods/leveldb-library/util/comparator.cc:52-64 | cut after the first byte that is not 0xff, with that byte raised |
| InternalKeys.ParseEncode | TaskFirebaseAuthApp2/Pods/leveldb-library/db/dbformat.h:165-175 | an encoded internal key parses to itself |
| InternalKeys.CompareIsAbstract | TaskFirebaseAuthApp2/Pods/leveldb-library/db/dbformat.cc:51-67 | comparing encoded keys is comparing the keys of the model |
| InternalKeys.FindShortestSeparator | TaskFirebaseAuthApp2/Pods/leveldb-library/db/dbformat.cc:69-86 | the separator is at or after the start and before the limit, and is the start or the earliest key of a strictly later, shorter user key |
| InternalKeys.FindShortSuccessor | TaskFirebaseAuthApp2/Pods/leveldb-library/db/dbformat.cc:88-101 | likewise for a successor |
| Coding.FixedRoundTrip | TaskFirebaseAuthApp2/Pods/leveldb-library/util/coding.cc:9-45 | little-endian integers of any width decode to themselves |
| Coding.FixedIsLittleEndian | TaskFirebaseAuthApp2/Pods/leveldb-library/util/coding.cc:9-33 | the bytes of fixed-width integers, the least significant first |
| Coding.VarintRoundTrip | TaskFirebaseAuthApp2/Pods/leveldb-library/util/coding.cc:81-157 | varints decode to themselves within the bytes allowed, whatever follows them |
| Coding.EncodeVarint32IsVarint | TaskFirebaseAuthApp2/Pods/leveldb-library/util/coding.cc:47-73 | the five written-out cases of the 32-bit encoder are the general loop |
| Coding.LengthPrefixedRoundTrip | TaskFirebaseAuthApp2/Pods/leveldb-library/util/coding.cc:98-101 | a length-prefixed string decodes to itself |
| Crc32c.ExtendIsValueOfAppend | TaskFirebaseAuthApp2/Pods/leveldb-library/util/crc32c.cc:276-378 | extending the checksum of a prefix gives the checksum of the whole |
| Crc32c.UnmaskMask | TaskFirebaseAuthApp2/Pods/leveldb-library/util/crc32c.h:29-38 | unmasking undoes masking |
| Crc32c.MaskUnmask | TaskFirebaseAuthApp2/Pods/leveldb-library/util/crc32c.h:29-38 | masking undoes unmasking, so no two checksums are stored alike |
| Crc32c.MaskRotates | TaskFirebaseAuthApp2/Pods/leveldb-library/util/crc32c.h:29-32 | the low 15 bits become the high ones, and a constant is added modulo 2^32 |
| Crc32c.TableEntries | TaskFirebaseAuthApp2/Pods/leveldb-library/util/crc32c.cc:20-63 | eight bit steps give the byte extension table's entries at the powers of two |
| Crc32c.TestValue | TaskFirebaseAuthApp2/Pods/leveldb-library/util/crc32c.cc:266-274 | the checksum of the code's own test string is the value that the code expects |
| LogFormat.CrcSchemeIsSound | TaskFirebaseAuthApp2/Pods/leveldb-library/db/log_writer.cc:82-108 | the header of a fragment tells its length and type, and its checksum is accepted |
| LogFormat.AcceptedIff | TaskFirebaseAuthApp2/Pods/leveldb-library/db/log_reader.cc:243-257 | of all stored checksums exactly one is accepted for a type byte and payload, the masked crc32c of both |
| LogFormat.PhysicalReadsBack | TaskFirebaseAuthApp2/Pods/leveldb-library/db/log_reader.cc:189-271 | a fragment held in full reads back as itself |
| LogFormat.TornPhysicalIsEof | TaskFirebaseAuthApp2/Pods/leveldb-library/db/log_reader.cc:192-239 | a header or payload cut off by the end of the file reads as the end of the file |
| LogSafety.CutRecordIsRead | TaskFirebaseAuthApp2/Pods/leveldb-library/db/log_reader.cc:71-171 | the fragments of a record are put together again without a report |
| LogSafety.TornRecordIsDropped | TaskFirebaseAuthApp2/Pods/leveldb-library/db/log_reader.cc:137-145 | a record missing its last fragments is dropped without a report |
| LogSafety.CompleteIsLongest | TaskFirebaseAuthApp2/Pods/leveldb-library/db/log_writer.cc:34-80 | the records counted as complete are the most that fit into the prefix |
| LogSafety.LogCrashTolerance | TaskFirebaseAuthApp2/Pods/leveldb-library/db/log_reader.cc:56-174 | whatever prefix of a log is left, reading it gives exactly the records held in full, in order, with no corruption report; the whole log gives all |
| LogSafety.RestOfBlockIsDropped | TaskFirebaseAuthApp2/Pods/leveldb-library/db/log_reader.cc:220-257 | behind a header with a wrong checksum or a length that leaves the block, nothing of the block is read; the reader reports once and goes on with the next block |
| LogSafety.DamageCostsOneBlock | TaskFirebaseAuthApp2/Pods/leveldb-library/db/log_reader.cc:189-270 | a log with records, then damage where the next header is, and records from the next block on reads as exactly these records with one report, whatever the rest of the damaged block holds |
| LogSafety.DamagedRecordIsDropped | TaskFirebaseAuthApp2/Pods/leveldb-library/db/log_reader.cc:118-170 | a record with a damaged fragment is dropped as a whole, with the reports for what was put together and for each fragment after the damage |
| LogSafety.ReopenedWriterContinues | TaskFirebaseAuthApp2/Pods/leveldb-library/db/log_writer.cc:27-30 | a writer opened at the length of a log goes on as the first writer would have |
| LogWriter.Writer.AddRecord | TaskFirebaseAuthApp2/Pods/leveldb-library/db/log_writer.cc:34-80 | appends exactly the bytes of the format: fragments within blocks, block tails filled with zeros |
| LogWriter.Writer.EmitNext | TaskFirebaseAuthApp2/Pods/leveldb-library/db/log_writer.cc:40-78 | one turn of the loop: a new block if a header does not fit, and as much of the data as fits |
| LogWriter.HeaderFromTypeCrc | TaskFirebaseAuthApp2/Pods/leveldb-library/db/log_writer.cc:93-96 | extending the type's precomputed checksum gives the header of the format |
| LogReader.ParseHeader | TaskFirebaseAuthApp2/Pods/leveldb-library/db/log_reader.cc:216-269 | decides about a header as the format's reader does: end of file, damage, or a fragment |
| LogReader.Reader.FillBuffer | TaskFirebaseAuthApp2/Pods/leveldb-library/db/log_reader.cc:190-214 | the buffer holds the rest of a block with room for a header, or the file is at its end |
| LogReader.Reader.ReadPhysicalRecord | TaskFirebaseAuthApp2/Pods/leveldb-library/db/log_reader.cc:189-271 | delivers the next fragment of the file, damage with its reports, or the end |
| LogReader.Reader.ReadRecord | TaskFirebaseAuthApp2/Pods/leveldb-library/db/log_reader.cc:56-174 | delivers the next record and the reports on the way |
| WriteBatch.OpRoundTrip | TaskFirebaseAuthApp2/Pods/leveldb-library/db/write_batch.cc:51-73 | an encoded update parses to itself |
| WriteBatch.BatchRoundTrip | TaskFirebaseAuthApp2/Pods/leveldb-library/db/write_batch.cc:42-80 | iterating over a batch hands on exactly the updates put into it, in order |
| WriteBatch.MalformedBatch | TaskFirebaseAuthApp2/Pods/leveldb-library/db/write_batch.cc:42-80 | a batch cut inside an update, or with a tag that does not exist, hands on exactly the updates before that and says what is wrong; a wrong count and a cut header are told, too |
| WriteBatch.KnownBatch | TaskFirebaseAuthApp2/Pods/leveldb-library/db/write_batch.cc:98-125 | the bytes of a batch with a put and a deletion |
| WriteBatch.Batch.Put | TaskFirebaseAuthApp2/Pods/leveldb-library/db/write_batch.cc:98-103 | one more update, counted |
| WriteBatch.Batch.Delete | TaskFirebaseAuthApp2/Pods/leveldb-library/db/write_batch.cc:105-109 | one more deletion, counted |
| WriteBatch.Batch.Append | TaskFirebaseAuthApp2/Pods/leveldb-library/db/write_batch.cc:144-148 | the updates of the other batch after those of this one, counted |
| WriteBatch.Batch.Iterate | TaskFirebaseAuthApp2/Pods/leveldb-library/db/write_batch.cc:42-80 | hands on updates until the input ends or is malformed, with the status the code returns |
| Recovery.InsertRecord | TaskFirebaseAuthApp2/Pods/leveldb-library/db/db_impl.cc:418-446 | replays one record: too short is skipped or an error, otherwise its updates get consecutive sequence numbers |
| Recovery.RecoverLogFile | TaskFirebaseAuthApp2/Pods/leveldb-library/db/db_impl.cc:371-489 | the tables written and the memtable left hold exactly the replayed rows, and the result is the replay of the log |
| Recovery.CrashAtomicRecovery | TaskFirebaseAuthApp2/Pods/leveldb-library/db/db_impl.cc:371-489 | replaying any prefix of a log, after what earlier logs gave, restores exactly the commit groups wholly inside it, with their sequence numbers, and the maximum is the last number of the last group |
| Recovery.RecoveryPassesDamage | TaskFirebaseAuthApp2/Pods/leveldb-library/db/db_impl.cc:371-447 | a log with groups, a damaged header and groups from the next block on: without paranoid checks exactly these groups are restored, with them the recovery fails |
| Recovery.DamageFailsParanoid | TaskFirebaseAuthApp2/Pods/leveldb-library/db/db_impl.cc:380-412 | under paranoid checks any corruption report makes the recovery fail |
| GroupCommit.BuildBatchGroup | TaskFirebaseAuthApp2/Pods/leveldb-library/db/db_impl.cc:1260-1306 | the group is the longest prefix of the queue whose writers may join, and the batch is theirs in order |
| GroupCommit.GroupIsUnique | TaskFirebaseAuthApp2/Pods/leveldb-library/db/db_impl.cc:1278-1303 | there is only one such prefix |
| GroupCommit.GroupSize | TaskFirebaseAuthApp2/Pods/leveldb-library/db/db_impl.cc:1268-1303 | a group is at most a megabyte, or 128 kilobytes more than a first batch that is no larger; no writer that asks for a sync follows a leader that does not; and it ends where one of these would be broken |
| GroupCommit.NextKeepsInv | TaskFirebaseAuthApp2/Pods/leveldb-library/db/db_impl.cc:1185-1257 | every step of every interleaving keeps the invariant |
| GroupCommit.VisibleIsCommitted | TaskFirebaseAuthApp2/Pods/leveldb-library/db/db_impl.cc:1224-1245 | a reader at the last sequence number sees exactly the rows of the committed batches |
| GroupCommit.BatchIsWholeAndVisible | TaskFirebaseAuthApp2/Pods/leveldb-library/db/db_impl.cc:1224-1245 | every row of a committed batch is visible, at the batch's own sequence numbers |
| GroupCommit.LogIsRecoverable | TaskFirebaseAuthApp2/Pods/leveldb-library/db/db_impl.cc:1216-1221 | the records of the log are groups that recovery restores one by one |
| GroupCommit.GroupCommitIsSafe | TaskFirebaseAuthApp2/Pods/leveldb-library/db/db_impl.cc:1185-1257 | over every interleaving calls end once and in the order they came, sequence ranges are contiguous, a sync write is never left to an unsynced record, and the log holds the committed updates and at most those of the group in flight |
| SkipListNodes.PublishKeepsInv | TaskFirebaseAuthApp2/Pods/leveldb-library/db/skiplist.h:359-368 | the store that links a node at a level keeps every level sorted and a sublist of the one below |
| SkipListNodes.NextKeepsInv | TaskFirebaseAuthApp2/Pods/leveldb-library/db/skiplist.h:334-368 | so does every store and load of an insertion and a concurrent search, the publishing store being just that store |
| SkipListNodes.SearchIsAtomic | TaskFirebaseAuthApp2/Pods/leveldb-library/db/skiplist.h:260-281 | a search's answer is the first node at or after the key at the moment of its last load |
| SkipListNodes.SearchFindsInserted | TaskFirebaseAuthApp2/Pods/leveldb-library/db/skiplist.h:260-281 | over every run, a search finds any key whose node was linked when the search began |
| SkipList.List.FindGreaterOrEqual | TaskFirebaseAuthApp2/Pods/leveldb-library/db/skiplist.h:260-281 | the node found and, for every level in use, the last node before the key |
| SkipList.List.FindLessThan | TaskFirebaseAuthApp2/Pods/leveldb-library/db/skiplist.h:283-302 | the last node before the key, or the head |
| SkipList.List.FindLast | TaskFirebaseAuthApp2/Pods/leveldb-library/db/skiplist.h:304-322 | the last node, or the head |
| SkipList.List.LinkNode | TaskFirebaseAuthApp2/Pods/leveldb-library/db/skiplist.h:361-367 | the two stores of one level are two steps of the machine |
| SkipList.List.Insert | TaskFirebaseAuthApp2/Pods/leveldb-library/db/skiplist.h:334-368 | exactly the new key is added, whatever height was drawn |
| SkipList.List.Contains | TaskFirebaseAuthApp2/Pods/leveldb-library/db/skiplist.h:370-378 | says whether the key is in the list |
| SkipList.StopsIsLastBefore | TaskFirebaseAuthApp2/Pods/leveldb-library/db/skiplist.h:260-302 | where a search stops is the last node before the key, and the link from there leads to the first at or after it |
| SkipList.Iterator.Seek | TaskFirebaseAuthApp2/Pods/leveldb-library/db/skiplist.h:223-226 | stands on the first key at or after the target |
| SkipList.Iterator.Next | TaskFirebaseAuthApp2/Pods/leveldb-library/db/skiplist.h:206-210 | one key on |
| SkipList.Iterator.Prev | TaskFirebaseAuthApp2/Pods/leveldb-library/db/skiplist.h:212-221 | one key back, none from the first |
| MemTable.PlaceEmbeds | TaskFirebaseAuthApp2/Pods/leveldb-library/db/memtable.cc:28-35 | positions of internal keys, user key first and then the larger trailer, are in the order of the list's comparator, and different keys have different ones |
| MemTable.MemTable.Add | TaskFirebaseAuthApp2/Pods/leveldb-library/db/memtable.cc:75-98 | inserting into the skip list, whatever height was drawn, makes the entries the sorted list with the new one in its place |
| MemTable.MemTable.Get | TaskFirebaseAuthApp2/Pods/leveldb-library/db/memtable.cc:100-135 | one seek of the list's iterator and a check of the user key are the lookup in the sorted entries |
| MemTable.MemTable.InsertInto | TaskFirebaseAuthApp2/Pods/leveldb-library/db/write_batch.cc:116-137 | the updates of a batch go in with consecutive sequence numbers, as they do into the memtable of DBImpl |
| Circular.UnlinkKeepsCircle | TaskFirebaseAuthApp2/Pods/leveldb-library/util/cache.cc:239-242 | unlinking a node leaves the circle of the others, in order |
| Circular.LinkKeepsCircle | TaskFirebaseAuthApp2/Pods/leveldb-library/util/cache.cc:244-250 | linking a node before the head makes it the newest |
| HandleTable.HandleTable.FindPointer | TaskFirebaseAuthApp2/Pods/leveldb-library/util/cache.cc:111-120 | the slot of the one handle in the bucket with the key, or the last slot of its chain |
| HandleTable.HandleTable.Lookup | TaskFirebaseAuthApp2/Pods/leveldb-library/util/cache.cc:74-76 | the handle with the key, or null only if the table has none |
| HandleTable.HandleTable.Insert | TaskFirebaseAuthApp2/Pods/leveldb-library/util/cache.cc:78-92 | the handle is in the table, in the place of one with the same key if there was one |
| HandleTable.HandleTable.Remove | TaskFirebaseAuthApp2/Pods/leveldb-library/util/cache.cc:94-101 | the handle with the key is out of the table |
| HandleTable.HandleTable.Resize | TaskFirebaseAuthApp2/Pods/leveldb-library/util/cache.cc:122-147 | the same handles in at least as many buckets as there are handles |
| LruModel.UnrefKeepsInv | TaskFirebaseAuthApp2/Pods/leveldb-library/util/cache.cc:225-237 | dropping a reference keeps the invariant |
| LruModel.EvictKeepsInv | TaskFirebaseAuthApp2/Pods/leveldb-library/util/cache.cc:293-300 | eviction takes unused handles from the front of the list, no more than it must |
| LruModel.InsertKeepsInv | TaskFirebaseAuthApp2/Pods/leveldb-library/util/cache.cc:266-303 | after an insertion the usage is within the capacity or no unused handle is left, and the new handle is the one cached for its key |
| LruModel.LookupKeepsInv | TaskFirebaseAuthApp2/Pods/leveldb-library/util/cache.cc:252-259 | a lookup keeps the invariant and what is cached |
| LruModel.EraseKeepsInv | TaskFirebaseAuthApp2/Pods/leveldb-library/util/cache.cc:318-321 | an erased key is not found, and handles clients hold live on |
| LruModel.PruneKeepsInv | TaskFirebaseAuthApp2/Pods/leveldb-library/util/cache.cc:323-333 | exactly the unused handles are erased, oldest first |
| LruModel.NothingLeaks | TaskFirebaseAuthApp2/Pods/leveldb-library/util/cache.cc:205-215 | once all handles are released and the rest erased, every deleter has run |
| LruModel.RunKeepsInv | TaskFirebaseAuthApp2/Pods/leveldb-library/util/cache.cc:217-333 | over every run: references are those held and one for a cached handle, each cached handle is in the list its references call for, no two cached handles share a key, and a deleter has run, once, exactly if no reference is left |
| LruModel.UnusedInReleaseOrder | TaskFirebaseAuthApp2/Pods/leveldb-library/util/cache.cc:233-250 | over every run, the unused handles are in the order of the operations by which their last clients gave them back |
| LruModel.UnusedSinceRelease | TaskFirebaseAuthApp2/Pods/leveldb-library/util/cache.cc:217-237 | no client has had an unused handle since that operation |
| LruModel.EvictedWereReleasedFirst | TaskFirebaseAuthApp2/Pods/leveldb-library/util/cache.cc:293-300 | an insertion evicts a handle only if every unused handle that it leaves was given back later |
| LruCache.LRUCache.Ref | TaskFirebaseAuthApp2/Pods/leveldb-library/util/cache.cc:217-223 | links, flags and counts follow the model |
| LruCache.LRUCache.Unref | TaskFirebaseAuthApp2/Pods/leveldb-library/util/cache.cc:225-237 | a reference less; with the last one the deleter runs, and with the last client gone the handle is linked in as the newest of the unused ones |
| LruCache.LRUCache.FinishErase | TaskFirebaseAuthApp2/Pods/leveldb-library/util/cache.cc:307-316 | likewise, and the usage is reduced by the charge |
| LruCache.LRUCache.Insert | TaskFirebaseAuthApp2/Pods/leveldb-library/util/cache.cc:266-303 | inserts as the model does: lists, table, references, usage and deleters |
| LruCache.LRUCache.Lookup | TaskFirebaseAuthApp2/Pods/leveldb-library/util/cache.cc:252-259 | finds what the model finds and takes a reference |
| LruCache.LRUCache.Release | TaskFirebaseAuthApp2/Pods/leveldb-library/util/cache.cc:261-264 | gives the reference back |
| LruCache.LRUCache.Erase | TaskFirebaseAuthApp2/Pods/leveldb-library/util/cache.cc:318-321 | erases as the model does |
| LruCache.LRUCache.Prune | TaskFirebaseAuthApp2/Pods/leveldb-library/util/cache.cc:323-333 | prunes as the model does |
| TableFormat.HandleRoundTrip | TaskFirebaseAuthApp2/Pods/leveldb-library/table/format.cc:15-29 | a block handle decodes to itself, whatever follows |
| TableFormat.WrittenIsRead | TaskFirebaseAuthApp2/Pods/leveldb-library/table/format.cc:64-140 | a block written with its type and masked checksum is read back, with the checksum verified or not |
| TableFormat.WrongChecksumIsRefused | TaskFirebaseAuthApp2/Pods/leveldb-library/table/format.cc:64-140 | a block is read, with its checksum verified, exactly if the masked crc32c of contents and type is stored behind it and the type is that of plain contents |
| TableFormat.FooterRoundTrip | TaskFirebaseAuthApp2/Pods/leveldb-library/table/format.cc:31-62 | the footer decodes to the two handles, past the padding and the magic number |
| TableBytes.BuildBlock | TaskFirebaseAuthApp2/Pods/leveldb-library/table/block_builder.cc:62-106 | the block built of pairs, with any restart interval, opens and reads as exactly these pairs |
| TableBytes.SeekBlock | TaskFirebaseAuthApp2/Pods/leveldb-library/table/block.cc:164-199 | a new iterator over a block's bytes and one seek give the first pair at or after the target, or none exactly if there is none |
| TableBytes.IndexIncreases | TaskFirebaseAuthApp2/Pods/leveldb-library/table/table_builder.cc:94-139 | index keys increase, shortened or not, so the index block can be searched |
| TableBytes.SeekHandle | TaskFirebaseAuthApp2/Pods/leveldb-library/table/table.cc:220-226 | searching the bytes of the index block gives the handle of the first block whose index key is at or after the key |
| TableBytes.SeekData | TaskFirebaseAuthApp2/Pods/leveldb-library/table/table.cc:231-236 | reading the data block, checksum verified or not, and searching its bytes gives the pair of the first entry at or after the key |
| TableBytes.InternalGet | TaskFirebaseAuthApp2/Pods/leveldb-library/table/table.cc:216-244 | on the bytes of the index block, of the filter and of the file, the lookup hands on the pair of the entry reported, and what SaveValue makes of it answers the read of all entries of the table |
| TableBytes.SavedPairIsSaved | TaskFirebaseAuthApp2/Pods/leveldb-library/db/version_set.cc:250-281 | parsing the key found and comparing user keys as bytes says the same as on the entry |
| TableBytes.ReadMeta | TaskFirebaseAuthApp2/Pods/leveldb-library/table/table.cc:84-131 | the filter block is found through the metaindex block exactly if it is of the policy's name |
| TableBytes.Open | TaskFirebaseAuthApp2/Pods/leveldb-library/table/table.cc:38-82 | the footer leads to the index block, and to the filter |
| TableBytes.Lookup | TaskFirebaseAuthApp2/Pods/leveldb-library/table/table.cc:38-244 | opening the file and looking a user key up in it answers the read of all entries of the table, with its filter or without |
| PbWire.Varint32RoundTrip | TaskFirebaseAuthApp2/Pods/nanopb/pb_decode.c:187-252 | the 32-bit varint decoder, with its quick case and its rules for the fifth and later bytes, gives back every 32-bit value encoded, whatever follows |
| PbWire.EncodeVarint | TaskFirebaseAuthApp2/Pods/nanopb/pb_encode.c:599-619 | the loop that fills a buffer seven bits at a time and clears the top bit of the last byte writes the base-128 varint of the value |
| PbWire.NarrowRoundTrip | TaskFirebaseAuthApp2/Pods/nanopb/pb_decode.c:1329-1364 | a signed integer of any of the four sizes, sent as its 64-bit pattern, survives the cast to 32 bits and the range check of its size |
| PbWire.ZigZagRoundTrip | TaskFirebaseAuthApp2/Pods/nanopb/pb_encode.c:621-630 | unfolding a ZigZag value gives the signed value back, over all 64 bits |
| PbWire.TagRoundTrip | TaskFirebaseAuthApp2/Pods/nanopb/pb_decode.c:298-319 | a tag decodes to its wire type and field number, whatever follows, and is not taken for the end of the message |
| PbWire.DelimitedRoundTrip | TaskFirebaseAuthApp2/Pods/nanopb/pb_decode.c:372-385 | a length-delimited value read through a substream is the value written, and the parent gives up exactly its bytes |
| PbCommon.FieldIter.Next | TaskFirebaseAuthApp2/Pods/nanopb/pb_common.c:20-76 | steps to the next field or wraps to the first, and keeps the index among the required fields right |
| PbCommon.FieldIter.Find | TaskFirebaseAuthApp2/Pods/nanopb/pb_common.c:78-95 | the search around the descriptor from wherever the iterator stands finds the field with the tag exactly if there is one, and otherwise comes back to where it stood |
| PbStream.IStream.DecodeVarint32 | TaskFirebaseAuthApp2/Pods/nanopb/pb_decode.c:187-247 | the loop over a stream takes the value and the bytes that the 32-bit varint at its front has, or fails |
| PbStream.IStream.DecodeVarint | TaskFirebaseAuthApp2/Pods/nanopb/pb_decode.c:255-275 | the loop over a stream takes ten bytes at most, with what does not fit in 64 bits shifted out |
| PbStream.IStream.DecodeTag | TaskFirebaseAuthApp2/Pods/nanopb/pb_decode.c:298-319 | tells a field from the end of the message and from an error |
| PbStream.IStream.SkipField | TaskFirebaseAuthApp2/Pods/nanopb/pb_decode.c:278-331 | moves past an unknown field of any wire type by as many bytes as the model says, which PbUnknown ties to what is written for a field, or fails |
| PbStream.IStream.MakeSubstream | TaskFirebaseAuthApp2/Pods/nanopb/pb_decode.c:372-385 | the substream has exactly the bytes of the value, which the parent may no longer read |
| PbStream.IStream.CloseSubstream | TaskFirebaseAuthApp2/Pods/nanopb/pb_decode.c:387-400 | the parent goes on after the value, however much of the substream was read |
| PbEncode.OStream.Write | TaskFirebaseAuthApp2/Pods/nanopb/pb_encode.c:103-121 | writes all of the bytes or none; a sizing stream only counts |
| PbEncode.EncodeNumber | TaskFirebaseAuthApp2/Pods/nanopb/pb_encode.c:760-841 | the encoders of numbers send what the wire format says for the type, and refuse a size that is no integer's |
| PbEncode.EncodeText | TaskFirebaseAuthApp2/Pods/nanopb/pb_encode.c:864-888 | sends the string up to its terminator, or the whole buffer if it has none |
| PbEncode.EncodeSubmessage | TaskFirebaseAuthApp2/Pods/nanopb/pb_encode.c:708-756 | counting the submessage first and writing it then gives a length prefix that is always right, and succeeds exactly if the message is in order and the whole of it fits |
| PbEncode.EncodePacked | TaskFirebaseAuthApp2/Pods/nanopb/pb_encode.c:160-202 | the size of a packed array, multiplied out or counted, is the number of bytes its entries take |
| PbEncode.EncodeArray | TaskFirebaseAuthApp2/Pods/nanopb/pb_encode.c:144-233 | sends nothing for an empty array, refuses one that is too long, packs it if the type allows it, and repeats the tag otherwise |
| PbEncode.EncodeField | TaskFirebaseAuthApp2/Pods/nanopb/pb_encode.c:332-417 | sends a field exactly if it is present: by its flag, by being the union's member, or by not holding nothing, which PbPresence spells out for each type |
| PbEncode.Encode | TaskFirebaseAuthApp2/Pods/nanopb/pb_encode.c:519-541 | for every descriptor and struct, sends exactly the message's bytes or, on a sizing stream, counts exactly as many; it succeeds exactly if nothing in the struct is out of range and the bytes fit |
| PbEncode.GetEncodedSize | TaskFirebaseAuthApp2/Pods/nanopb/pb_encode.c:558-567 | the size is the length of what encoding writes |
| PbDecode.SetToDefaults | TaskFirebaseAuthApp2/Pods/nanopb/pb_decode.c:836-919 | the loop fills a struct with its defaults, submessages included |
| PbDecode.DecodeNumber | TaskFirebaseAuthApp2/Pods/nanopb/pb_decode.c:1318-1429 | the decoders of numbers take what the wire format has for the type, and reject what the field cannot hold |
| PbDecode.DecodeBlob | TaskFirebaseAuthApp2/Pods/nanopb/pb_decode.c:1431-1548 | the decoders of bytes and strings take a length-delimited value, and reject what the buffer cannot hold |
| PbDecode.DecodeSubmessage | TaskFirebaseAuthApp2/Pods/nanopb/pb_decode.c:1503-1525 | decodes on a substream, starting from defaults for an array entry and from what is there otherwise, and leaves the parent behind it |
| PbDecode.DecodePacked | TaskFirebaseAuthApp2/Pods/nanopb/pb_decode.c:425-453 | takes the entries of a packed array until the substream ends; fails if the array is full before |
| PbDecode.DecodeField | TaskFirebaseAuthApp2/Pods/nanopb/pb_decode.c:406-480 | a field is replaced, added to its array, or made the member of its union, as its kind says |
| PbDecode.WholeWord | TaskFirebaseAuthApp2/Pods/nanopb/pb_decode.c:1051-1069 | a word of the bitmap equals the expected mask exactly if all the required fields it stands for were seen |
| PbDecode.CheckRequired | TaskFirebaseAuthApp2/Pods/nanopb/pb_decode.c:1030-1070 | counting on to the end of the descriptor from any position and comparing whole words tells exactly if each of the first 64 required fields was seen |
| PbDecode.SetSlotShaped | TaskFirebaseAuthApp2/Pods/nanopb/pb_decode.c:466-475 | storing a decoded value, and clearing the rest of its union, keeps every nested struct in the shape of its descriptor |
| PbDecode.DecodeNoInit | TaskFirebaseAuthApp2/Pods/nanopb/pb_decode.c:925-1073 | for all bytes, the loop with the wrapping iterator, the substreams and the bitmap accepts and builds exactly what the recursive meaning of a message says |
| PbDecode.Decode | TaskFirebaseAuthApp2/Pods/nanopb/pb_decode.c:1075-1087 | the same from defaults: the decoder is the specification function for all bytes |
| PbRoundTrip.OneStep | TaskFirebaseAuthApp2/Pods/nanopb/pb_decode.c:943-1021 | after a tag, the decoder does with the rest what the decoder of the tag's field does, and goes on behind it |
| PbRoundTrip.NumberRoundTrip | TaskFirebaseAuthApp2/Pods/nanopb/pb_decode.c:1318-1429 | every number of every type that can be encoded decodes to itself, a bool to whether it is nonzero |
| PbRoundTrip.BlobRoundTrip | TaskFirebaseAuthApp2/Pods/nanopb/pb_decode.c:1431-1548 | bytes decode to themselves; a string does exactly if it leaves room for a terminator |
| PbRoundTrip.ItemRoundTrip | TaskFirebaseAuthApp2/Pods/nanopb/pb_decode.c:1503-1525 | a value of any type, submessages included, decodes to itself with absent parts replaced by defaults, exactly if every string in it ends within its buffer |
| PbRoundTrip.PackedRoundTrip | TaskFirebaseAuthApp2/Pods/nanopb/pb_decode.c:425-453 | all entries of a packed array come back, in order, behind those already there |
| PbRoundTrip.TaggedRoundTrip | TaskFirebaseAuthApp2/Pods/nanopb/pb_decode.c:454-464 | so do all entries of an array with repeated tags, submessages included |
| PbRoundTrip.FieldRoundTrip | TaskFirebaseAuthApp2/Pods/nanopb/pb_decode.c:406-480 | what is written for a field of any kind takes its slot from its default to its restored value and leaves all others alone |
| PbRoundTrip.UnionStaysClear | TaskFirebaseAuthApp2/Pods/nanopb/pb_decode.c:466-475 | setting the member of a union loses nothing, as no other member was written |
| PbRoundTrip.FieldsFrom | TaskFirebaseAuthApp2/Pods/nanopb/pb_decode.c:943-1021 | from any field on, and in front of anything else, decoding the rest of the message restores the rest of the fields and marks the rest of the required ones |
| PbRoundTrip.DecodeOfEncoded | TaskFirebaseAuthApp2/Pods/nanopb/pb_decode.c:1075-1087 | for every descriptor with distinct tags and every struct that can be encoded, decoding gives the struct back with defaults for what is absent, or fails, exactly if some string written fills its buffer |
| PbRoundTrip.RoundTrip | TaskFirebaseAuthApp2/Pods/nanopb/pb_encode.c:519-541 | a struct in canonical form comes back as it was exactly if no string that is written fills its buffer |
| PbRoundTrip.EncodeDecodeEncode | TaskFirebaseAuthApp2/Pods/nanopb/pb_encode.c:237-328 | if fields told by their value default to zero, encoding the decoded struct gives the same bytes: the same fields are present, with the same values |
| PbRoundTrip.ZeroSlotKept | TaskFirebaseAuthApp2/Pods/nanopb/pb_encode.c:237-328 | a field, however deeply its zero test looks into submessages, is present after the round trip exactly if it was before |
| PbRoundTrip.FullStringIsLost | TaskFirebaseAuthApp2/Pods/nanopb/pb_encode.c:864-888 | a struct whose string fills its buffer encodes, and its encoding does not decode |
| PbDecode.CountRequired | TaskFirebaseAuthApp2/Pods/nanopb/pb_decode.c:1030-1049 | from any position of the iterator, going on to the end gives the number of required fields, the terminator not counted |
| PbRoundTrip.UnknownIsSkippedIff | TaskFirebaseAuthApp2/Pods/nanopb/pb_decode.c:957-986 | a field that the descriptor does not have is passed by the skipping function of its wire type, whatever bytes follow, if and only if it is not field number zero of a message without fields; how far that is, PbUnknown.UnknownFieldIsSkipped says |
| PbRoundTrip.TerminatorIsDecoded | TaskFirebaseAuthApp2/Pods/nanopb/pb_common.c:78-95 | for field number zero a message without fields decodes a bool in the place of its terminator, where skipping by the wire type fails |
| PbRoundTrip.CutFieldIsAccepted | TaskFirebaseAuthApp2/Pods/nanopb/pb_decode.c:938-943 | the bytes 1 and 5, a field of eight bytes cut off after one, decode as a message without fields |
| PbPresence.UnwrittenIff | TaskFirebaseAuthApp2/Pods/nanopb/pb_encode.c:235-417 | nothing is written for a field exactly if it is repeated and empty, an unset union member, an optional field with its flag off, or one without a flag that holds zero, no bytes, a string that ends at once, or a submessage encoded to nothing |
| PbPresence.EncodedToNothing | TaskFirebaseAuthApp2/Pods/nanopb/pb_encode.c:286-306 | a submessage is encoded to nothing exactly if nothing is written for any of its fields, which is what the check for zero finds |
| PbPresence.PlainRoundTrip | TaskFirebaseAuthApp2/Pods/nanopb/pb_encode.c:519-541 | the round trip for structs described by their values alone: a struct comes back exactly if its strings leave room for their terminators |
| PbPresence.TidyRoundTrip | TaskFirebaseAuthApp2/Pods/nanopb/pb_encode.c:519-541 | with zero for the defaults of fields without a flag, as in proto3, that holds whatever the values of these fields are |
| PbUnknown.ItemIsSkipped | TaskFirebaseAuthApp2/Pods/nanopb/pb_decode.c:278-331 | a value of any type is skipped to its end by the wire type it is written with |
| PbUnknown.UnknownFieldIsSkipped | TaskFirebaseAuthApp2/Pods/nanopb/pb_decode.c:957-986 | whatever is written for a field that the descriptor does not have, single, packed or repeated, the decoder goes on behind it as if it were not there |
| PbUnknown.CutUnknownIsRefused | TaskFirebaseAuthApp2/Pods/nanopb/pb_decode.c:278-331 | a message that ends inside such a field is refused, and so is a wire type that does not exist |
| PbUnknown.LargerMessageDecodes | TaskFirebaseAuthApp2/Pods/nanopb/pb_decode.c:925-1073 | a message of a larger descriptor decodes, with a descriptor of some of its fields, to what the message of those fields alone decodes to |
| PbSemantics.MissingRequiredIsRefused | TaskFirebaseAuthApp2/Pods/nanopb/pb_decode.c:1029-1070 | bytes in which one of the first 64 required fields has no tag are refused |
| PbSemantics.LastMemberWins | TaskFirebaseAuthApp2/Pods/nanopb/pb_decode.c:466-475 | of two members of a union the last one stays and the first is unset, and no other field changes |
| PbSemantics.LastValueWins | TaskFirebaseAuthApp2/Pods/nanopb/pb_decode.c:416-422 | a number, a string or bytes that occur again replace what was there |
| PbSemantics.UnpackedEntryIsTaken | TaskFirebaseAuthApp2/Pods/nanopb/pb_decode.c:454-463 | an array that is packed when it is written takes entries with a tag of their own, as long as it has room |
| PbSemantics.OccurrencesMerge | TaskFirebaseAuthApp2/Pods/nanopb/pb_decode.c:1503-1525 | two occurrences of a submessage decode as one with the bytes of both, if it has no required fields |
| PbSemantics.UnfitUnsignedIsRefused | TaskFirebaseAuthApp2/Pods/nanopb/pb_decode.c:1366-1388 | an unsigned varint that the field's type cannot hold is an error, any other is its value |
| PbSemantics.UnfitSignedIsRefused | TaskFirebaseAuthApp2/Pods/nanopb/pb_decode.c:1329-1364 | a signed one is read from its low 32 bits, or all 64 for eight bytes, and is an error if the type cannot hold it |
| PbSemantics.UnfitZigZagIsRefused | TaskFirebaseAuthApp2/Pods/nanopb/pb_decode.c:1390-1412 | likewise for ZigZag |
| PbSemantics.UnfitBytesAreRefused | TaskFirebaseAuthApp2/Pods/nanopb/pb_decode.c:1431-1547 | bytes and strings that do not fit their buffer, terminator included, are errors; an empty fixed-length array stands for zeros |
| PbSemantics.PackedOverflow | TaskFirebaseAuthApp2/Pods/nanopb/pb_decode.c:425-453 | a packed array with more entries than there is room for is an error |
| PbSemantics.EmptyMessage | TaskFirebaseAuthApp2/Pods/nanopb/pb_decode.c:836-923 | no bytes decode exactly if no field is required, and then each field has its initial value, its flag off, no entries, no member |
| PbSemantics.ZeroEndsMessage | TaskFirebaseAuthApp2/Pods/nanopb/pb_decode.c:309-313 | a zero in the place of a tag ends the message, whatever follows it |
| PbSemantics.KnownFields | TaskFirebaseAuthApp2/Pods/nanopb/pb_encode.c:599-700 | the bytes of a varint, a ZigZag varint, fixed sizes and bytes, as the encoding guide of Protocol Buffers has them |
| PbSemantics.KnownPackedArray | TaskFirebaseAuthApp2/Pods/nanopb/pb_encode.c:144-190 | the bytes of a packed array, as that guide has them |
| PbSemantics.KnownSubmessage | TaskFirebaseAuthApp2/Pods/nanopb/pb_encode.c:708-756 | the bytes of a submessage, as that guide has them |
| PbDecoded.DecodedIsStruct | TaskFirebaseAuthApp2/Pods/nanopb/pb_decode.c:925-1088 | whatever bytes decode to is a struct of the descriptor, with at most one member of each union set, that can be encoded and whose strings end |
| PbDecoded.DecodedIsStable | TaskFirebaseAuthApp2/Pods/nanopb/pb_decode.c:925-1088 | so it can be encoded, which decodes to the same up to what is not written, and from then on nothing changes |

## Left out

- I/O errors: every write to a log or to the manifest succeeds, and files hold what was written; failed `LogAndApply`,
  `AddRecord` and background errors are not modelled, apart from calls that end with an error before they reach the log.
- File names, directories, locking, deletion of obsolete files, `RepairDB`, statistics and `GetProperty`.
- When to compact: scores, seek counts and read sampling choose among compactions that are all allowed here.
- The assertion on overlapping files in the version builder, which ends the program in builds that have assertions on.
- The numbers of compaction outputs are handed out when the compaction ends, not while it runs.
- Log reading from a nonzero initial offset, and with checksums off.
- Snappy compression: every block of a table file is stored as it is.
- Corrupted internal keys met by iterators and corrupted blocks: iterators run over blocks and runs that were built.
- Weak-memory ordering: loads and stores of the skip list are sequentially consistent.
- The sharding of the cache, and its mutex: one shard, one operation at a time.
- `std::sort`, `std::set` and `std::upper_bound` are their specifications, written as functions or loops.
- DbObject.DBImpl.Write: does not model the queue of writers and the log, which GroupCommit, WriteBatch and LogWriter have.
- Table.InternalGet: blocks are lists of entries here; TableBytes.InternalGet is the same lookup on bytes.
- Reopen.ReopenedData: takes a database without an immutable memtable and a manifest that still leads to the version it ran
  on; Durability.ReopenedAnswers is without both conditions.
- Durability.ReopenedAnswers: takes table files of recovered versions as still there, and begins with a database that was
  made by this run; what recovery does to the files it opens again is not followed.
- EditCodec.VersionEdit.EncodeTo: takes the iteration order of the set of deleted files as a parameter, as any order will do.
- GroupCommit.BuildBatchGroup: the size of a batch's representation is given with the writer rather than computed.
- Manifest.VersionSet.Recover: takes the edits of the manifest, not its bytes; ManifestBytes has the step from bytes to edits.
- The queue of writers and the circular snapshot list are proved on their own states; DBImpl's snapshots are the sequence
  that the list's contracts speak of, as its memtable is the one that MemTable's do, and DBImpl does not hold the objects.
- nanopb's callbacks, extensions, pointer fields and their release, fixed-count arrays, custom streams, and the build
  without 64-bit integers.
- nanopb structs are lists of slots, not bytes at offsets; members of a union have a slot each, of which one at most is
  set. A word of the required-fields bitmap is the set of its bits.
- Sizes of nanopb's `size_t` and `pb_size_t` are unbounded, and messages in the round trip are shorter than 4 GiB.
- PbModel.GetFields: checks only the first 64 required fields, as the code does.
- A bool that is decoded in the place of the terminator is stored into the struct's first byte; a message without fields
  has no slot for it.
