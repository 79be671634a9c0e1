# Verified model of minidb

Dafny models of the `crates/minidb` crate, an embedded, log-structured key-value and document
database, with proofs of what its parts promise each other.

- **Lock** (`Lock.dfy`): the lock-file takeover protocol as interleaved file operations of any
  number of processes.
- **Skip list** (`SkipLinks.dfy`, `SkipList.dfy`, `SortedPairs.dfy`, `RangeSpec.dfy`): the arena
  with towers, spans, backward links and tail, refined to a sorted sequence of pairs.
- **Log format and scanners** (`Bytes.dfy`, `Frames.dfy`, `BatchCodec.dfy`, `LogScan.dfy`,
  `TornLog.dfy`, `FileScan.dfy`, `FrameParser.dfy`): frames with CRC-32 (section 8 of RFC 1952),
  batches, the in-memory scanner, the chunked file scanner and the incremental parser.
- **Recovery and compaction** (`Changes.dfy`, `Records.dfy`, `Durability.dfy`, `Database.dfy`,
  `DatabaseInv.dfy`, `Recovery.dfy`, `Compaction.dfy`): what a log says and where its values lie; a
  state machine with writers, flushing, publishing, expiry, the steps of compaction and crashes at
  any point; and the loops of recovery, snapshot writing and log rotation, proved to carry out its
  steps (`Refinement.dfy`). `Window.dfy` and `WindowRun.dfy` say what the old file handles answer
  between remapping and reopening; `Follower.dfy` follows the log from another process.
- **Store and memory limit** (`Accounts.dfy`, `ByteOrder.dfy`, `Store.dfy`, `Memory.dfy`): records,
  key order, expiry heap, counters, projection and eviction.
- **Indexes and rollback** (`Json.dfy`, `Indexes.dfy`, `Uniqueness.dfy`, `IndexManager.dfy`,
  `DtIndex.dfy`, `CompoundIndex.dfy`, `Derived.dfy`, `Answers.dfy`, `Rollback.dfy`, `Rebuild.dfy`):
  equality, range, datetime and compound indexes, uniqueness checks, a batch that is rolled back, and
  rebuilding against incremental upkeep.
- **Text index** (`Postings.dfy`, `TextTables.dfy`, `TextSearch.dfy`, `TextIndex.dfy`): the postings
  file (unsigned LEB128, section 7.6 of DWARF 5), live postings, the cache and searching.
- **Requests** (`Resp.dfy`): the parser and printer of the Redis serialization protocol.

`dafny verify dfyconfig.toml` checks everything.

How the models are built. An object whose fields the crate updates in place is a class
(`SkipList`, `FrameParser`, `Store`, `Wal`, `Keeper`, `IndexManager`, `DateTimeIndex`,
`CompoundIndexManager`, `Derived`, `Db`, `PostingsFile`, `TextIndex`, `RespParser`), and its methods
are proved against functions of the old state; what is promised is then proved of those functions,
and what they mean is said once more without them: bounds by the comparator, sizes by bytes laid out,
formats byte by byte, searches by the words of a document.
The lock and the life of the database are state machines: one action is one file operation, or one
stretch of code under a lock. Clocks, node heights, hash-map orders, schedules of writers and
chunkings are parameters or free choices, so the theorems hold for all of them.

What the code does not promise. Some statements one might expect are false of the code; each is
given by its exact condition or by a failing case:

- `range` honours `gte` and `gt` together, or `lte` and `lt` in reverse, exactly when the bound it
  drops is not shadowed (`RangeSpec.RangeExact`).
- Resync mode finds exactly the whole frames of a torn log if and only if no frame reads inside the
  torn one (`TornLog.ResyncExact`).
- Every expiring record has a heap entry unless the push of its own entry rebuilt the heap
  (`Stores.Store.SetRef`); reaping removes exactly what the heap knows of (`Stores.Store.ReapExpired`).
  65 sets of one key leave it out (`Stores.MissedByTheHeap`).
- Rebuilt and incremental indexes answer alike, while no record has run out, exactly when no index
  takes a key from a live document that is not an object (`Rebuilding.RebuildExact`).
- The lock excludes exactly as long as no racing process dies that the lock file names while another
  live one is scanning, and no renewal renames for a process that no longer races while another live
  one holds the lock or is scanning (`LockProtocol.OrderlyExact`). A renewal that is late in this way
  while nobody races leaves a lock that nobody can take (`LockProtocol.StuckStays`).
- `FrameParser` offsets: without an error the offset is right exactly when nothing was skipped
  (`FrameParsers.OffsetExact`); an error adds the frames of its own call twice and lacks what earlier
  calls skipped, so it is right exactly when these two are equal (`FrameParsers.ErrorOffsetExact`).
- Between `remap_store` and `reopen_both` reads go through the old handles. Exactly when they are
  right is in `ReopenWindow.OldHandlesExact`; `WindowRun.OtherValueRead` is a run that reads the value
  of another key. In all other states every answer is right.
- A follower's indexes agree with its store after a recovered operation and the next drain if and
  only if the operation does not set a key that waits to leave the indexes to a living record with a
  share in them (`Follower.FollowAndDrain`). Otherwise the key is lost to the datetime, compound and
  text indexes; an equality index lists it under the old values that are not new ones, and a range
  index under all its old numbers (`Follower.StaleRun` is a run).
- A batch that sets keys without documents is refused for their nulls, exactly when
  `Uniqueness.NullsExact` says, though nothing of them would be indexed.
- Adding a document under a key that is indexed leaves stale answers exactly when `Indexes.AddsCleanly`
  fails; callers remove the earlier document first.
- A request whose argument begins with another byte than a dollar sign is not refused: the parser
  waits for more (`Resp.OtherByteWaits`).
- `crates/minidb/README.md` speaks of keys of at most 128 bytes; the code admits 65535, and the models
  follow the code.

## Model

| member | source | states |
|---|---|---|
| `LockProtocol.StepKeepsInv` | crates/minidb/src/lockfile.rs:59-265 | every file operation of `acquire`, `renew` and `release`, by any process in any interleaving, with any number of renewals of a process beside its other operations, keeps the protocol invariant, unless it is a bad death or a bad renewal |
| `LockProtocol.MutualExclusion` | crates/minidb/src/lockfile.rs:59-265 | in every run without such a step, from any leftovers of dead processes, at most one live process holds the lock, the lock file names it, `release` removes only its own record, and, if no renewal was late, a live process is named only while it holds the lock or settles a takeover |
| `LockProtocol.OrderlyExact` | crates/minidb/src/lockfile.rs:206-250 | the condition is exact: after any such run a further step of any kind can be followed by an orderly run to two live holders, or to a holder that the file does not name, if and only if it is the death of a racing process that the lock file names while another live one is scanning, or the rename of a renewal whose process no longer races, while another live one holds the lock or is scanning |
| `LockProtocol.BadDeathBreaks` | crates/minidb/src/lockfile.rs:206-227 | how after such a death: the rest die, and the scanner takes the lock that no longer is in its name |
| `LockProtocol.BadRenewalBreaks` | crates/minidb/src/lockfile.rs:230-250 | how after such a renewal: at once against a holder, or when the scanner wins |
| `LockProtocol.UnwatchedIsOrderly` | crates/minidb/src/lockfile.rs:126-140 | runs in which nobody dies while its own watch file exists and no renewal is late have no such step |
| `LockProtocol.OneAtATimeIsTimely` | crates/minidb/src/minidb.rs:1811-1816 | if no process renews beside another operation of its own, no renewal is late |
| `LockProtocol.NamedExact` | crates/minidb/src/lockfile.rs:230-250 | a step makes the lock file name a live process that neither holds nor settles it if and only if it is a late rename: the renewal found the lock held, and the process has released it since |
| `LockProtocol.StuckStays` | crates/minidb/src/lockfile.rs:72-83 | after a late rename with nobody holding or racing, no process acquires the lock any more, whatever is tried, as long as none dies |
| `LockProtocol.DyingWatcherBreaksExclusion` | crates/minidb/src/lockfile.rs:206-227 | a concrete run: a process that the lock file names dies while it watches, and two live processes hold the lock |
| `LockProtocol.LateRenewalBreaksExclusion` | crates/minidb/src/lockfile.rs:230-265 | a concrete run without such a death: a process renews beside its own release, the rename comes when another one holds the lock, and two live processes end up holding it |
| `SkipLinks.InsertedLinked` | crates/minidb/src/skiplist.rs:181-194 | splicing a tower in keeps every level equal to the nodes tall enough for it and every span equal to the distance along level 0 (to the end of the list for the last node), and no subtraction of a span saturates |
| `SkipLinks.RemovedLinked` | crates/minidb/src/skiplist.rs:230-248 | unlinking a tower restores the same for the remaining nodes, and every span written is the exact difference: no saturating subtraction saturates |
| `SkipLinks.RaisedLinked` | crates/minidb/src/skiplist.rs:171-179 | levels taken into use start at the header with the whole length as span |
| `SkipLinks.LoweredLinked` | crates/minidb/src/skiplist.rs:255-257 | an empty top level may be dropped |
| `SkipLists.SpliceIn` | crates/minidb/src/skiplist.rs:181-194 | the loop over the new node's levels relinks exactly the predecessors, widens the spans above it, and leaves every other link alone |
| `SkipLists.SpliceOut` | crates/minidb/src/skiplist.rs:230-248 | the loop over the target's levels relinks exactly the predecessors and narrows the spans above it |
| `SkipLists.LinkBack` | crates/minidb/src/skiplist.rs:196-202 | backward links and tail mirror level 0 after an insert |
| `SkipLists.UnlinkBack` | crates/minidb/src/skiplist.rs:249-254 | backward links and tail mirror level 0 after a delete |
| `SkipLists.SkipList.Descend` | crates/minidb/src/skiplist.rs:155-169 | the descent counts exactly the nodes in front and finds the predecessor on every level |
| `SkipLists.SkipList.Insert` | crates/minidb/src/skiplist.rs:151-204 | for any node height the list stays valid and its pairs are the old ones with the new one in its sorted place |
| `SkipLists.SkipList.Delete` | crates/minidb/src/skiplist.rs:207-260 | true exactly when an equal pair was there; then one copy is gone and nothing else |
| `SkipLists.SkipList.LowerBoundIndex` | crates/minidb/src/skiplist.rs:262-280 | the first pair at or above a bound, or strictly above it |
| `SkipLists.SkipList.Rank` | crates/minidb/src/skiplist.rs:297-324 | the index of the last equal pair, if there is one |
| `SkipLists.SkipList.GetByRank` | crates/minidb/src/skiplist.rs:327-347 | the i-th pair, by adding spans |
| `SkipLists.SkipList.Range` | crates/minidb/src/skiplist.rs:350-423 | filter by the bounds honoured, reverse, then offset and count; every pair is inside `gte`, `gt`, `lte` and `lt` as far as the walk honours them, every pair inside is there unless the page cuts it off, and the keys ascend, or descend in reverse |
| `SkipLists.SkipList.RangeStart` | crates/minidb/src/skiplist.rs:354-382 | where the walk starts: the first pair inside the bound it honours, from either end |
| `RangeSpec.RangeExact` | crates/minidb/src/skiplist.rs:350-423 | the honoured bounds give what all given bounds say, on every list, exactly when no bound in front of the walk is shadowed |
| `RangeSpec.ShadowedDiffers` | crates/minidb/src/skiplist.rs:376-382 | a shadowed bound shows: a one-pair list on which `gte` and `gt` together give a pair that filtering would drop |
| `RangeSpec.AllWantedCounts` | crates/minidb/src/skiplist.rs:331-405 | how often a pair is in the answer, said of the four bounds with the comparator written out |
| `RangeSpec.WantedPage` | crates/minidb/src/skiplist.rs:383-405 | the page is the stretch of the whole answer from `offset` on, at most `count` long |
| `RangeSpec.RangeOfSet` | crates/minidb/src/skiplist.rs:331-405 | a range of an index, said of the set of pairs it lists |
| `SortedPairs.InsertMultiset` | crates/minidb/src/skiplist.rs:151-204 | inserting adds one copy to the multiset of pairs |
| `SortedPairs.RemoveMultiset` | crates/minidb/src/skiplist.rs:207-260 | deleting takes one copy out, if there is one |
| `SortedPairs.SortedUnique` | crates/minidb/src/skiplist.rs:151-260 | the multiset determines the sorted list, so two lists that hold the same pairs answer alike |
| `SkipLists.OutcomeIsTally` | crates/minidb/src/skiplist.rs:151-260 | over every run of inserts and deletes the list stays sorted and its multiset is that of the run |
| `SkipLists.Perform` | crates/minidb/src/skiplist.rs:151-260 | the real list carries out every such run |
| `Bytes.ChecksumInChunks` | crates/minidb/src/crc32.rs:2-6 | CRC-32 over chunks, each started from the checksum before, is that of the whole |
| `Bytes.CheckValues` | crates/minidb/src/crc32.rs:1-6 | two checksums worked out: of four bytes of ones, and with one bit more |
| `Frames.RoundTripExact` | crates/minidb/src/codec.rs:109-133 | an encoded frame reads back exactly when value and metadata lengths fit their four-byte fields (empty metadata comes back as none) |
| `Frames.ReadEncoded` | crates/minidb/src/codec.rs:206-237 | an encoded frame at the front reads as itself with its length, whatever follows |
| `Frames.TornFrame` | crates/minidb/src/codec.rs:206-237 | no strict prefix of an encoded frame reads as a frame |
| `Frames.EncodedSaid` | crates/minidb/src/codec.rs:109-133 | a frame byte by byte: magic, type, a zero, the three lengths and the expiry least significant byte first, the payload, and the checksum of all but the magic |
| `Frames.ReadFrameExtends` | crates/minidb/src/codec.rs:206-237 | bytes behind a whole frame do not change how it is read |
| `LogScan.ParseBuffer` | crates/minidb/src/codec.rs:338-378 | the loop with its search for the next magic computes the scan: frames in order, corrupt ranges, end offset, in both modes |
| `LogScan.FindResume` | crates/minidb/src/codec.rs:353-365 | resynchronisation stops at the first position from which a frame reads |
| `LogScan.ScanTiles` | crates/minidb/src/codec.rs:338-378 | for every byte sequence frames and corrupt ranges tile it in order without gap or overlap |
| `LogScan.TilesConserve` | crates/minidb/src/codec.rs:338-378 | so their lengths sum to its length |
| `LogScan.ScanSound` | crates/minidb/src/codec.rs:338-378 | every frame found reads at its place, every corrupt range starts where none reads, and strict mode reports at most one |
| `LogScan.ResyncMissesNothing` | crates/minidb/src/codec.rs:352-371 | in resync mode no position inside a corrupt range starts a frame |
| `TornLog.StrictScanExact` | crates/minidb/src/codec.rs:338-350 | a log cut at any byte, scanned in strict mode, gives exactly its whole frames, their end offset, and the rest as one corrupt range |
| `TornLog.ResumeScan` | crates/minidb/src/codec.rs:473-517 | resuming at the end offset of a shorter log finds the rest of the longer one |
| `TornLog.ResyncExact` | crates/minidb/src/codec.rs:352-371 | resync mode on a cut log gives exactly its whole frames if and only if no frame reads inside the torn one |
| `TornLog.ModesAgree` | crates/minidb/src/codec.rs:338-378 | in that case the two modes agree in everything they report |
| `TornLog.ResyncFindsNested` | crates/minidb/src/codec.rs:352-371 | an encoded frame inside a torn value is found by resync mode although the log has no whole frame |
| `FileScan.HashRange` | crates/minidb/src/codec.rs:408-418 | the checksum taken chunk by chunk from the file is the hash of the stretch |
| `FileScan.ReadFrameRefAt` | crates/minidb/src/codec.rs:385-446 | reading a frame by reference succeeds exactly where the in-memory reader does and says the same |
| `FileScan.FindMagic` | crates/minidb/src/codec.rs:448-470 | the overlapping chunks find the first magic from a position on |
| `FileScan.ScanFrameRefs` | crates/minidb/src/codec.rs:473-517 | the file scanner finds the frames, corrupt ranges and end offset of the in-memory scan, in both modes from any offset |
| `FileScan.RefReadsValue` | crates/minidb/src/codec.rs:436-445 | a reference leads to the bytes of its frame's value |
| `FileScan.ScanBothWays` | crates/minidb/src/codec.rs:338-517 | both scanners on the same bytes: frame by frame the same keys, metadata and values, and the same ranges and end |
| `FrameParsers.FrameParser.Feed` | crates/minidb/src/codec.rs:255-317 | one call takes every frame that is complete, skips garbage in front of a magic without moving the offset, and on an error keeps the pending bytes |
| `FrameParsers.OffsetExact` | crates/minidb/src/codec.rs:255-317 | without an error the offset moves by the bytes taken exactly when the loop never stands before bytes without a magic |
| `FrameParsers.ErrorOffsetExact` | crates/minidb/src/codec.rs:264-308 | an error names the place it stands at exactly when the bytes of the frames taken in the same call equal those skipped in earlier calls; with none skipped, exactly when no frame was taken |
| `FrameParsers.StreamConserved` | crates/minidb/src/codec.rs:255-317 | over any stream fed without an error the bytes fed are those of the frames, those skipped and those pending |
| `FrameParsers.StreamErrorExact` | crates/minidb/src/codec.rs:264-308 | where the next error of any stream is reported, and by how much it is off |
| `FrameParsers.ErrorOffsetDoubles` | crates/minidb/src/codec.rs:264-271 | a frame of n bytes and 22 bytes without a magic fed at once: the error stands at n and is reported at 2 n |
| `FrameParsers.SkippedBytesLost` | crates/minidb/src/codec.rs:263-273 | m bytes without a magic and a frame: the frame is found, and the offset is short by m |
| `FrameParsers.FrameParser.Finish` | crates/minidb/src/codec.rs:319-329 | the end offset if nothing is pending, else a torn tail |
| `FrameParsers.DrainLog` | crates/minidb/src/codec.rs:255-317 | what a call takes from a cut log is exactly its whole frames |
| `FrameParsers.FeedStep` | crates/minidb/src/codec.rs:255-317 | a call that brings the log from j to k bytes yields exactly the frames that became whole |
| `FrameParsers.FeedAll` | crates/minidb/src/codec.rs:255-329 | for every chunking of the first k bytes the frames, the offset and the pending bytes are the same |
| `BatchCodec.EncodeBatchOps` | crates/minidb/src/codec.rs:136-163 | too many operations, then too long a key, is an error; otherwise count and operations one behind another |
| `BatchCodec.DecodeBatchOps` | crates/minidb/src/codec.rs:166-204 | the loop decodes as the recursive reading does, with the same errors; a body too short for a count is empty |
| `BatchCodec.ScanBatchOpRefs` | crates/minidb/src/codec.rs:527-565 | the loop yields the references of the recursive reading |
| `BatchCodec.RefsAgree` | crates/minidb/src/codec.rs:527-565 | on every body references succeed, fail and say what decoding does, and each value lies where its reference says |
| `BatchCodec.BatchRoundTrip` | crates/minidb/src/codec.rs:136-204 | decoding an encoded batch gives its operations back, whatever follows |
| `BatchCodec.OpSaid` | crates/minidb/src/codec.rs:150-161 | an operation of a batch byte by byte |
| `BatchCodec.BatchSaid` | crates/minidb/src/codec.rs:136-164 | a batch is the number of its operations in two bytes and the operations one behind another |
| `Changes.FrameChangesSayOps` | crates/minidb/src/recovery.rs:104-150 | reading a frame by reference says the same operations as reading it whole, wherever it lies |
| `Changes.FrameReadsIn` | crates/minidb/src/recovery.rs:104-150 | every value of a frame, single or in a batch, lies within the frame where its change says |
| `Changes.LogInPlace` | crates/minidb/src/codec.rs:473-565 | the same for every value of a whole log |
| `Changes.WriteRoundTrip` | crates/minidb/src/minidb.rs:724-846 | the frame that `set`, `del` or `batch` appends says, read back, exactly the operations written |
| `Changes.WriteSaid` | crates/minidb/src/minidb.rs:724-730 | the bytes that `set`, `del` and `batch` append: types 1, 2 and 3, expiry, key, value and metadata, or the counted body |
| `Changes.BatchOpSaid` | crates/minidb/src/codec.rs:150-161 | the bytes of a set and of a removal in a batch |
| `Records.AgreeExact` | crates/minidb/src/store.rs:226-235 | two documents agree from now on exactly when they are equal or neither can be seen any more |
| `Records.TableIsAfter` | crates/minidb/src/recovery.rs:363-377 | applying operations one by one leaves for each key what its last operation says |
| `Records.ReplayDecides` | crates/minidb/src/recovery.rs:363-377 | after a replay a key's record comes from its last change, or is gone with it, or is as before |
| `Durability.HeldReads` | crates/minidb/src/store.rs:249-257 | a record that is held answers `get` with its document at every later time, from memory or from the file |
| `Durability.HistorySaid` | crates/minidb/src/minidb.rs:709-760 | what a history shows of a key: what its last operation set, if that was a set and has not run out, an expiry of zero meaning never |
| `Durability.HeldAppend` | crates/minidb/src/minidb.rs:731-734 | appending a frame and applying it at once keeps every other record readable |
| `Durability.HeldPublish` | crates/minidb/src/minidb.rs:739-746 | once the frame is written, the published location reads the value last set in it, also inside a batch |
| `Durability.RecoverHeld` | crates/minidb/src/recovery.rs:293-319 | whatever the clock reads during recovery, the recovered store shows what snapshot and log say |
| `Durability.SnapshotHeld` | crates/minidb/src/snapshot.rs:41-97 | a snapshot taken at any moment, in any order of entries, says of every key what the store shows |
| `Durability.HeldRemap` | crates/minidb/src/compaction.rs:355-376 | remapping leads every unexpired record to where the new files hold its value |
| `Durability.LastSettled` | crates/minidb/src/recovery.rs:293-377 | the last change of a key reads from the log and nothing behind it touches the key |
| `DatabaseInvariant.CrashPointsAgree` | crates/minidb/src/compaction.rs:223-323 | for every log, every fence at a frame boundary and every later moment of taking the entries: old snapshot and log, new snapshot and whole log, new snapshot and log suffix show the same live documents at every later time |
| `DatabaseInvariant.RestartFinds` | crates/minidb/src/recovery.rs:293-336 | recovery from files cut anywhere finds the whole frames and cuts off the rest |
| `DatabaseInvariant.StepKeepsInv` | crates/minidb/src/compaction.rs:223-323 | writing, flushing, publishing, acknowledging, expiring, each step of compaction, and a crash with recovery at any point keep the invariant |
| `DatabaseInvariant.RunKeepsInv` | crates/minidb/src/compaction.rs:223-323 | so it holds in every state of every run |
| `DatabaseInvariant.GetShowsHistory` | crates/minidb/src/minidb.rs:660-684 | in every state of every run except between remapping and reopening `get` through the open handles answers what the accepted writes say; in between the new files do |
| `ReopenWindow.OldHandlesExact` | crates/minidb/src/compaction.rs:316-320 | in every state of every run `get` through the open handles is right if and only if the state is not between remapping and reopening, or the record has run out, is in memory, or reads the same bytes at its place from the old and the new files |
| `ReopenWindow.RemapInRun` | crates/minidb/src/compaction.rs:316-320 | what the next four lemmas ask of a record on file holds of every such record when a run remaps |
| `ReopenWindow.RemapThenRead` | crates/minidb/src/compaction.rs:316-320 | after remapping the old handles answer with the bytes the old files hold at the new place: right if and only if they hold the same at the old one |
| `ReopenWindow.BehindTheFence` | crates/minidb/src/compaction.rs:364-369 | for a value behind the fence: right if and only if the old log repeats itself at the distance of the part before the fence; otherwise other bytes of the log are the answer |
| `ReopenWindow.BeforeTheFence` | crates/minidb/src/compaction.rs:370-372 | for a value from before the fence: right if and only if the old snapshot already holds the value at its place in the new one |
| `ReopenWindow.WindowBeforeReopen` | crates/minidb/src/compaction.rs:316-320 | in a first compaction no value from before the fence can be read there |
| `WindowRun.OtherValueRead` | crates/minidb/src/compaction.rs:316-320 | a run from an empty database that reads a wrong value: two keys and values of the same lengths, the second set behind the fence; `get` of the second key answers the first one's value |
| `DatabaseInvariant.AcknowledgedSurvive` | crates/minidb/src/recovery.rs:293-361 | a crash anywhere, in the middle of compaction too, loses no acknowledged write and revives nothing |
| `DatabaseInvariant.WrittenStays` | crates/minidb/src/minidb.rs:709-830 | in every run, a write that no crash takes before it is acknowledged is in the history ever after, at its place, whatever crashes and compactions come |
| `DatabaseInvariant.CrashAnywhere` | crates/minidb/src/recovery.rs:293-361 | a crash may come in every state of a run, whatever the clocks read then |
| `DatabaseInvariant.LocationsRead` | crates/minidb/src/minidb.rs:855-873 | in every state of every run the location of an unexpired record reads the value last written to its key, from the open files or between remapping and reopening from the new ones |
| `DatabaseInvariant.RemapPreservesReads` | crates/minidb/src/compaction.rs:316-319 | every key reads from the new files after remapping what it read from the old files before |
| `Recovery.FrameToOps` | crates/minidb/src/recovery.rs:104-150 | the operations of a frame read by reference: values in memory mode, locations in disk mode, removals for what has run out at its own clock reading |
| `Recovery.ScanFile` | crates/minidb/src/recovery.rs:263-290 | the operations, frame count, corrupt ranges and end of a file |
| `Recovery.ApplyOperations` | crates/minidb/src/recovery.rs:363-377 | applying in order to a store is the fold of its single steps |
| `Recovery.Recover` | crates/minidb/src/recovery.rs:293-361 | the store after recovery, the report, and the truncated log, for missing files too |
| `Recovery.CatchUp` | crates/minidb/src/recovery.rs:380-414 | what has been appended is applied; the cases in which catching up gives up, and that nothing changes then |
| `Recovery.CatchUpIsRecovery` | crates/minidb/src/recovery.rs:380-414 | recovering a cut log and catching up later is recovering the longer log once |
| `Recovery.CatchUpGoesOn` | crates/minidb/src/recovery.rs:397-406 | on a log of encoded frames cut anywhere catching up from a frame boundary never gives up |
| `Follower.FollowedShows` | crates/minidb/src/minidb.rs:1872-1917 | a follower's looks at each key before and after an operation change nothing that can be seen: the store shows what plain application does |
| `Follower.ApplyRecovered` | crates/minidb/src/minidb.rs:1872-1917 | one recovered operation on any valid database, whatever waits to leave the indexes: it stays consistent unless it sets a key that waits to a record that lives; then the datetime, compound and text indexes have the new share, and the equality and range indexes are written over their old keys |
| `Follower.FollowAndDrain` | crates/minidb/src/minidb.rs:1872-1917 | after any recovered operation and the next drain store and indexes agree if and only if the operation does not set a waiting key to a living record with a share in the indexes; else the datetime, compound and text indexes have lost the key, and of each equality and range index it is said exactly what it lists: the other documents, the old values that are not among the new ones, all the old numbers |
| `Follower.StaleRun` | crates/minidb/src/minidb.rs:1889-1914 | a concrete run from an empty database: a document that had run out is set again for good; after the drain no index lists it under its own value, and an equality and a range index list it under the old one |
| `Refinement.TakeSnapshot` | crates/minidb/src/compaction.rs:231-237 | in every state of the machine reading the entries and writing the snapshot never fails, and writes the file and locations of the step that takes the entries |
| `Refinement.EntriesTaken` | crates/minidb/src/store.rs:274-288 | the entries of the store, in whatever order, are the snapshot that the state machine takes |
| `Refinement.Rotate` | crates/minidb/src/compaction.rs:244-292 | whatever writers append meanwhile, the sealed log holds whole appends and the copy is the encoding of its frames from the fence on |
| `Refinement.RotatedInstalled` | crates/minidb/src/compaction.rs:305-311 | that copy is the log which renaming installs |
| `Refinement.RemapStep` | crates/minidb/src/compaction.rs:316-376 | `remap_store` leaves the store of the remapping step |
| `Refinement.RestartStep` | crates/minidb/src/recovery.rs:293-361 | recovery of the files a crash left gives the store, the log and the frame count of the restart step |
| `Compaction.WriteSnapshotEntries` | crates/minidb/src/snapshot.rs:41-97 | the file holds one set frame per entry, count and size are right, and each location is that of its key's value |
| `Compaction.CopyFileRange` | crates/minidb/src/compaction.rs:130-168 | the range, as far as the source goes, is copied behind or over what the destination holds; an end before the start is an error |
| `Compaction.CopyTail` | crates/minidb/src/compaction.rs:244-292 | for every schedule of appends and any leftover file the loops end, and the new file is the log from the fence to its sealed end with no accepted byte missing |
| `Compaction.RemapStore` | crates/minidb/src/compaction.rs:355-376 | every location moves as the model of compaction says, nothing else about any record changes |
| `Stores.MissedByTheHeap` | crates/minidb/src/store.rs:166-211 | a concrete run: 65 sets of one expiring key from an empty store; its record has run out and the heap does not know of it, so no reaping takes it |
| `Stores.Store.SetRef` | crates/minidb/src/store.rs:166-211 | the record, the counters and the key order; which expiring records the heap knows afterwards, exactly: a push that makes the heap too long rebuilds it without the new record |
| `Stores.Store.Remove` | crates/minidb/src/store.rs:213-224 | the record goes from records, order and counters; what has run out is remembered |
| `Stores.Store.ExpireIfNeeded` | crates/minidb/src/store.rs:226-235 | a record goes exactly when it has run out |
| `Stores.Store.Get` | crates/minidb/src/store.rs:249-257 | the value of a live record, nothing for a missing or expired one, and the reader's error |
| `Stores.Store.Has` | crates/minidb/src/store.rs:270-272 | whether a live record is there; one that has run out goes |
| `Stores.Store.Len` | crates/minidb/src/store.rs:97-106 | the number of records that can be seen |
| `Stores.Store.Entries` | crates/minidb/src/store.rs:274-288 | one entry for each live record with its value, in any order, or the reader's error |
| `Stores.Store.Scan` | crates/minidb/src/store.rs:290-312 | the live entries of a range in order, each key judged by its own clock reading; those met that have run out are removed |
| `Stores.Store.RawKeys` | crates/minidb/src/store.rs:325-335 | the live keys of a range in order, each judged by its own clock reading |
| `Stores.KeysInRange` | crates/minidb/src/store.rs:290-335 | the keys of a range, said of the records: all that are inside the bounds and live when they are visited, strictly one way in byte order |
| `RangeSpec.WantedOnce` | crates/minidb/src/store.rs:290-335 | a range visits no pair twice |
| `Stores.Store.RemapLocations` | crates/minidb/src/store.rs:337-349 | only references on disk move; the accounts stay exact |
| `Stores.Store.ReapExpired` | crates/minidb/src/store.rs:352-371 | what goes is exactly what has run out and the heap knows of, up to the maximum; the rest and the heap's gaps stay |
| `Stores.Replace` | crates/minidb/src/store.rs:173-200 | byte counter equal to the sum of record sizes, exact expiring count, order equal to the sorted keys, after replacing any record |
| `Accounts.TotalWithout` | crates/minidb/src/store.rs:213-218 | the sum of record sizes without one record |
| `Accounts.TotalLaidOut` | crates/minidb/src/store.rs:126-149 | the byte counter is the length of all keys, values in memory and metadata put one behind another, in any order, and 64 for each value on disk |
| `ByteOrder.OrderUnique` | crates/minidb/src/store.rs:189-219 | the key set determines the order list |
| `ByteOrder.Lexicographic` | crates/minidb/src/store.rs:79 | one string comes before another if it is smaller where they first differ, or ends there |
| `Memory.Project` | crates/minidb/src/minidb.rs:1051-1071 | the projection is the bytes after the whole batch, keys written several times included; no subtraction saturates |
| `Memory.Keeper.Victim` | crates/minidb/src/minidb.rs:1076-1080 | the key used longest ago among those in the store that are not being written |
| `Memory.Keeper.EnsureMemoryFor` | crates/minidb/src/minidb.rs:1034-1099 | the loop ends; on success everything the store will hold after the batch, laid out, is within the limit, and not on failure; victims go in order of last use and are never keys being written; failure means that evicting is not allowed or nothing is left to evict |
| `Memory.Keeper.WriteInMemory` | crates/minidb/src/minidb.rs:788-853 | in memory mode an accepted batch leaves the keys, values and metadata that the store holds together no longer than the limit |
| `Memory.Keeper.WriteOnDisk` | crates/minidb/src/minidb.rs:788-873 | in disk mode too, on return: values count in full until they are published; each key has the place of its last value unless its record went meanwhile |
| `Memory.Keeper.PublishAll` | crates/minidb/src/minidb.rs:855-873 | publishing, in any order of keys, moves exactly the records that are still those the write made |
| `Memory.AtRestBounds` | crates/minidb/src/minidb.rs:1051-1071 | a store that holds what a batch left, with its values on disk, takes no more than was projected |
| `Memory.Keeper.Touch` | crates/minidb/src/minidb.rs:2074-2077 | the access list stays in the order of last use, each key once |
| `Memory.Keeper.ApplyOperation` | crates/minidb/src/minidb.rs:881-922 | a set touches its key, a removal forgets it, what has run out is dropped first |
| `Indexes.AddTo` | crates/minidb/src/index_manager.rs:332-370 | one index after a document is added says what a fresh index of the documents would, if and only if nothing stale is left of an earlier document under the key: an equality index keeps its old keys, a range index lists numbers twice |
| `Indexes.RemoveFrom` | crates/minidb/src/index_manager.rs:372-396 | whatever earlier additions left: a removal takes out what the index still knows under the key; forgotten keys stay, and of a number listed twice one copy does |
| `Json.PathLeads` | crates/minidb/src/query.rs:41-50 | a path leads to a value if and only if one can get there member by member |
| `Indexes.ReflectsUnique` | crates/minidb/src/index_manager.rs:332-467 | two indexes of one definition over the same documents answer alike, whatever their pasts |
| `IndexManagers.ManagersAgree` | crates/minidb/src/index_manager.rs:449-467 | so incremental indexing and rebuilding answer alike |
| `IndexManagers.IndexManager.Add` | crates/minidb/src/index_manager.rs:332-370 | the same if-and-only-if for all indexes of the manager, and what each has forgotten or doubled when it fails |
| `IndexManagers.IndexManager.Remove` | crates/minidb/src/index_manager.rs:372-396 | every index of the manager after a removal, whatever earlier additions left in it |
| `IndexManagers.IndexManager.Rebuild` | crates/minidb/src/index_manager.rs:449-467 | every index says what the object documents of the store say |
| `IndexManagers.IndexManager.FindEq` | crates/minidb/src/index_manager.rs:398-411 | the keys of exactly the documents whose field is an array with such an item, or is such a value, or is missing when the index is not sparse and null is looked for; each once; the two errors |
| `IndexManagers.IndexManager.FindRange` | crates/minidb/src/index_manager.rs:417-447 | the sorted pairs filtered, reversed and paged: numbers of the documents between the minimum and the maximum, inclusive or not, all of them unless the page cuts them off, each once, in order or in reverse; the two errors |
| `Uniqueness.FindConflict` | crates/minidb/src/index_manager.rs:178-218 | on a unique index a document is accepted exactly when the documents with it have unique values |
| `Uniqueness.UniqueSaid` | crates/minidb/src/index_manager.rs:178-221 | unique means that no two documents have a key, or a number, in common, items of arrays included |
| `Uniqueness.BatchConflicts` | crates/minidb/src/index_manager.rs:221-290 | a batch is accepted exactly when the documents after it have unique values, swaps included |
| `Uniqueness.LastOpsDecide` | crates/minidb/src/index_manager.rs:222-226 | of several operations on a key only the last decides the documents after the batch |
| `Uniqueness.NullsExact` | crates/minidb/src/minidb.rs:1012-1032 | a set without a document is checked as null: accepted if and only if the documents are unique and, where an index takes a key from null, there is one null at most and no document with that key |
| `Uniqueness.TwoNullsRefused` | crates/minidb/src/minidb.rs:1012-1032 | two sets without documents are refused by a unique index that is not sparse, though neither would be indexed |
| `Uniqueness.IsUnique` | crates/minidb/src/index_manager.rs:292-330 | the whole-index check says whether values are unique |
| `IndexManagers.IndexManager.CheckUnique` | crates/minidb/src/index_manager.rs:178-218 | the same over all unique indexes |
| `IndexManagers.IndexManager.CheckUniqueBatch` | crates/minidb/src/index_manager.rs:221-290 | the same over all unique indexes for a batch |
| `IndexManagers.IndexManager.AssertUniqueValid` | crates/minidb/src/index_manager.rs:292-330 | an index is valid if it is not unique or has no value with two owners; an unknown name is an error |
| `IndexManagers.IndexManager.SetChecked` | crates/minidb/src/minidb.rs:709-734 | an accepted set keeps every unique index unique, a refused one changes nothing |
| `IndexManagers.IndexManager.BatchChecked` | crates/minidb/src/minidb.rs:788-835 | an accepted batch may break uniqueness between its operations but not at its end |
| `IndexManagers.IndexManager.PreparedChecked` | crates/minidb/src/minidb.rs:788-835 | the same with sets that have no document: exactly when the check accepts, and that such a set is applied as a removal |
| `DateTimes.DateTimeIndex.Set` | crates/minidb/src/dt_index.rs:33-63 | only changed columns are touched, and all columns say what the datetimes by key say |
| `DateTimes.DateTimeIndex.Delete` | crates/minidb/src/dt_index.rs:65-78 | no column keeps the key, empty columns go |
| `DateTimes.DateTimeIndex.Range` | crates/minidb/src/dt_index.rs:80-92 | the column's times inside the bounds honoured, with their keys, all of them unless the page cuts them off, in order or in reverse; an unknown column has none |
| `DateTimes.DateTimeIndex.Rebuild` | crates/minidb/src/dt_index.rs:98-107 | the index of the given datetimes, later ones replacing earlier ones |
| `DateTimes.IndexesAgree` | crates/minidb/src/dt_index.rs:33-107 | the datetimes determine the columns, so incremental indexing and rebuilding answer alike |
| `CompoundIndexes.AddTo` | crates/minidb/src/compound_index.rs:111-148 | after adding or replacing a document every group lists exactly its members in order |
| `CompoundIndexes.RemoveFrom` | crates/minidb/src/compound_index.rs:150-158 | the same after a removal, which may leave an empty group |
| `CompoundIndexes.ReflectsUnique` | crates/minidb/src/compound_index.rs:111-194 | documents determine placements and groups, so incremental indexing and rebuilding answer alike |
| `CompoundIndexes.CompoundIndexManager.Range` | crates/minidb/src/compound_index.rs:160-181 | the documents placed in the group whose order value is inside the bounds honoured, all of them unless the page cuts them off, in order or in reverse; the error for an unknown index |
| `CompoundIndexes.CompoundIndexManager.Rebuild` | crates/minidb/src/compound_index.rs:183-194 | every index of the given documents |
| `CompoundIndexes.GroupsTotal` | crates/minidb/src/compound_index.rs:197-206 | the comparator of order values is a total order, numbers before texts |
| `CompoundIndexes.PlacementSaid` | crates/minidb/src/compound_index.rs:111-134 | where a document belongs: its group if not null; by number the datetime of that name before a number of the document, by text a text of the document and nothing if there is such a datetime |
| `CompoundIndexes.OrderSaid` | crates/minidb/src/compound_index.rs:197-206 | numbers before texts, numbers by size, texts lexicographically |
| `DerivedState.Derived.ApplySet` | crates/minidb/src/minidb.rs:2079-2104 | a set replaces the key's share in every index and touches no other key's; if the old value is not seen, the old document stays in the equality and range indexes or is written over |
| `DerivedState.Derived.ApplyDelete` | crates/minidb/src/minidb.rs:2106-2115 | a removal takes the key out of every index and touches no other key's share |
| `DerivedState.Derived.Rebuild` | crates/minidb/src/minidb.rs:2136-2161 | the four rebuilds one after the other hold what each makes of its list |
| `Rollback.Db.ApplyOperation` | crates/minidb/src/minidb.rs:881-922 | records and indexes stay consistent, and what a rollback needs is returned |
| `Rollback.Db.Drain` | crates/minidb/src/minidb.rs:2117-2121 | what has run out leaves every index, as far as the equality and range indexes still know what they have under it, and no other share changes |
| `Rollback.Db.RestoreKey` | crates/minidb/src/minidb.rs:924-971 | a key goes back to its earlier record unless it has been written since; the indexes follow |
| `Rollback.Db.Batch` | crates/minidb/src/minidb.rs:830-854 | if logging fails every key has the value, expiry and datetimes it had, and every share of the indexes is as before, none is left of keys the batch introduced; only shares of what had run out may be missing, and if none had, every index answers as before |
| `Rebuilding.RebuildDerived` | crates/minidb/src/minidb.rs:2123-2163 | from the live entries of the store, in any order, every index is rebuilt to hold exactly the shares of the live records; against indexes kept up by runs of sets and deletes the answers differ exactly as the next rows say; a failing text index leaves that index as it was |
| `Rebuilding.FreshIsRebuilt` | crates/minidb/src/minidb.rs:2128-2161 | the four rebuilt tables, key by key: the share of each live record, without a document that is not an object in the equality and range indexes |
| `Rebuilding.LeftOutDecides` | crates/minidb/src/minidb.rs:2123-2163 | for every index incremental and rebuilt answers are the same if and only if it takes nothing from the documents that rebuilding leaves out |
| `Rebuilding.RebuildExact` | crates/minidb/src/index_manager.rs:449-467 | while no record has run out, all incremental and rebuilt answers are the same if and only if no index takes a key from a live document that is not an object |
| `Rebuilding.SparsePassesScalars` | crates/minidb/src/index_manager.rs:332-337 | a sparse index on a field takes nothing from such a document |
| `Rebuilding.WholeDocumentTaken` | crates/minidb/src/index_manager.rs:332-370 | an index of whole documents does, so a number it lists is lost by rebuilding |
| `Answers.FewerFoundExact` | crates/minidb/src/index_manager.rs:332-467 | for one equality or range index: leaving documents out changes an answer if and only if it takes a key from one of them |
| `Answers.FewerTimesExact` | crates/minidb/src/dt_index.rs:33-107 | for the datetime columns: if and only if a key with datetimes is left out |
| `Answers.FewerPlacedExact` | crates/minidb/src/compound_index.rs:111-194 | for a compound index: if and only if a document with a placement is left out |
| `Answers.SharesDecide` | crates/minidb/src/minidb.rs:2079-2163 | indexes that hold the same shares answer alike in every value, range, column and group |
| `Postings.VarintRoundTrip` | crates/minidb/src/text_postings.rs:78-103 | every 32-bit value decodes to itself, whatever follows |
| `Postings.VarintSaid` | crates/minidb/src/text_postings.rs:78-84 | seven bits of the number in each byte, the first counting least, the eighth set in all but the last, and no empty byte at the end |
| `Postings.DecodeVarint` | crates/minidb/src/text_postings.rs:86-103 | the loop reads at most six groups and reports truncated and overlong ones |
| `Postings.PostingRoundTrip` | crates/minidb/src/text_postings.rs:54-76 | a list of any 32-bit ids in any order decodes to itself exactly when its length fits 32 bits |
| `Postings.PostingExample` | crates/minidb/src/text_postings.rs:54-64 | a list of two worked out in bytes |
| `Postings.RecordRoundTrip` | crates/minidb/src/text_postings.rs:105-156 | a record decodes to its term, frequency and payload |
| `Postings.RecordSaid` | crates/minidb/src/text_postings.rs:105-123 | a record byte by byte |
| `Postings.Rebuild` | crates/minidb/src/text_postings.rs:190-239 | every dictionary entry of a rebuilt file reads back its own term's list, and terms without a list have none |
| `Postings.PostingsFile.Read` | crates/minidb/src/text_postings.rs:177-183 | the list of an entry, or the error of a closed file, a short read, a bad record or a bad list |
| `Postings.PostingsFile.Close` | crates/minidb/src/text_postings.rs:185-187 | a closed file reads nothing any more |
| `TextTables.LiveSize` | crates/minidb/src/text_index.rs:283-294 | as many live ids as documents have a term |
| `TextIndexes.InsertCache` | crates/minidb/src/text_index.rs:272-281 | the cache holds at most so many terms, and the one used longest ago goes |
| `TextIndexes.TextIndex.Build` | crates/minidb/src/text_index.rs:137-203 | the index of exactly the given documents, in memory or on disk; a failed rebuild of the file changes nothing |
| `TextIndexes.TextIndex.Add` | crates/minidb/src/text_index.rs:206-227 | the index of the documents with this one added or replaced |
| `TextIndexes.TextIndex.Remove` | crates/minidb/src/text_index.rs:229-242 | the index of the documents without this one |
| `TextIndexes.TextIndex.ReadBase` | crates/minidb/src/text_index.rs:244-265 | the base list of a term, the same from memory, cache or file |
| `TextIndexes.TextIndex.Live` | crates/minidb/src/text_index.rs:283-294 | the live postings of a term are the frequencies in the current documents |
| `TextIndexes.TextIndex.DocumentCount` | crates/minidb/src/text_index.rs:99-101 | the counter is the number of current documents |
| `TextIndexes.TextIndex.Search` | crates/minidb/src/text_index.rs:297-363 | an AND search finds exactly the documents with every word of the query, an OR search those with one, if their score is positive; best first, cut to the limit; in memory and on disk |
| `TextSearch.RankAll` | crates/minidb/src/text_index.rs:330-361 | candidates of AND and OR searches, scores and order from the live postings |
| `TextSearch.RankingsAgree` | crates/minidb/src/text_index.rs:353-361 | two indexes of the same documents give the same hits, and the same scores under any limit |
| `TextSearch.AndWithinOr` | crates/minidb/src/text_index.rs:316-330 | what an AND search finds, an OR search finds with the same score |
| `TextSearch.TermScoreSaid` | crates/minidb/src/text_index.rs:344-350 | the score of a word: its share in the document times the logarithm of one plus documents per document that has it |
| `TextSearch.ScoreSum` | crates/minidb/src/text_index.rs:340-350 | the score of a query is the sum over its words |
| `Resp.ParseOne` | crates/minidb/src/server.rs:70-116 | the loop parses as the recursive reading does |
| `Resp.TrailingBytes` | crates/minidb/src/server.rs:70-116 | once a parse has come to something, further bytes never change it |
| `Resp.CompleteLies` | crates/minidb/src/server.rs:85-116 | whatever request behind a star is taken lies there in full: the count, and each argument behind its length |
| `Resp.ParsesDecimal` | crates/minidb/src/server.rs:126-131 | a number parses if it is decimal digits, one plus sign in front allowed, and fits 64 bits |
| `Resp.PrintsDecimal` | crates/minidb/src/server.rs:142-160 | numbers are printed in decimal without a zero in front |
| `Resp.TenBytes` | crates/minidb/src/server.rs:85-131 | a request of one ten-byte argument, byte by byte |
| `Resp.CountRefused` | crates/minidb/src/server.rs:85-88 | a count that is no number is refused, whatever follows |
| `Resp.LengthRefused` | crates/minidb/src/server.rs:98-101 | after any arguments, a length that is no number is refused |
| `Resp.EndRefused` | crates/minidb/src/server.rs:103-111 | after any arguments, one that does not end where its length says is refused |
| `Resp.OtherByteWaits` | crates/minidb/src/server.rs:92-97 | after any arguments, the parser waits for a dollar sign even when another byte is in its place |
| `Resp.CommandRoundTrip` | crates/minidb/src/server.rs:70-159 | a command printed as an array of bulk strings parses to itself, whatever follows |
| `Resp.TornCommand` | crates/minidb/src/server.rs:70-116 | no strict prefix of a printed command parses to anything |
| `Resp.InlineRoundTrip` | crates/minidb/src/server.rs:74-84 | an inline command of words one space apart parses to its words, whatever follows |
| `Resp.WordsPart` | crates/minidb/src/server.rs:74-84 | a space, a tab, a line feed, a form feed and a carriage return part words |
| `Resp.WordWhole` | crates/minidb/src/server.rs:74-84 | anything without one of these is one word |
| `Resp.PrintedIsArray` | crates/minidb/src/server.rs:142-159 | a printed command is what `array` gives for its arguments |
| `Resp.DrainPrefix` | crates/minidb/src/server.rs:55-67 | the beginning of a stream of commands drains to the whole ones and leaves the beginning of the rest |
| `Resp.RespParser.Feed` | crates/minidb/src/server.rs:55-67 | one call: all commands that are complete; too much clears the buffer; an invalid request keeps it |
| `Resp.FeedAll` | crates/minidb/src/server.rs:55-131 | for every chunking within the limit exactly the printed commands in order, with an empty buffer left |

## Left out

- The write-ahead log's queue, flush batching, fsync policies and repair of failed writes: the log is an append-only byte sequence of which some first part is in the file.
- Appending to the log and applying to the store are one step, as the comment at `minidb.rs:709` intends; expiry may fall between any two steps.
- Compaction that fails half-way through its renames, backup, restore and reopening after errors: input and output plumbing. Abandoning a compaction before it seals the log is modelled.
- Fsync, directory entries, Windows rename retries and real file handles: a rename is one atomic step; reads of a file return what was asked for.
- Unix liveness only for the lock; process ids are not reused within a run.
- The clock does not go back, sequence numbers and document ids do not wrap, and values, metadata, batch bodies and records are shorter than 4 GiB where a theorem says so.
- JSON text, UTF-8 decoding, regular expressions and the logarithm: metadata is kept as its bytes, `stable_stringify`, `canonical_value`, `tokenize` and `ln` are arbitrary functions, path strings are given as tokens.
- Numbers are reals without NaN and without a second zero, scores are exact reals.
- Skip lists inside the store and the indexes are represented by the sorted sequences that `SkipLists.SkipList` is proved to refine.
- The heap is kept as the sequence in which its items come out.
- One text index stands for the map of them in the derived state; the others behave alike.
- Creating, dropping and loading index definitions, and `MiniDb::query` with its intersections: filtering and sorting.
- Key conversions outside ASCII in `query`, `Store::prefix` beyond its range call, `query.rs` filters and `set_path`: easy or incomplete in the code.
- Values read back while applying an operation are taken to be readable; a failing value reader is modelled in the store only.
- The reply side of the server beyond `bulk` and `array`, and memory reserved for announced lengths.
- The cluster module, hooks, the other crates and the applications.
- Memory.Keeper.EnsureMemoryFor: logging an eviction is taken to succeed, because its rollback is that of any removal (`Rollback.Db.RestoreKey`).
- Memory.Keeper.WriteOnDisk: a value that cannot be read back while it is replaced, and a log that fails, end the write earlier; the latter is `Rollback.Db.Batch`.
- Rebuilding.RebuildDerived: values of the store are taken to be readable; `Rollback.Db.Valid` holds afterwards only when every record lives and every document is an object, so the steps of `Rollback.Db` are not followed on from a database that was opened with others.
- Follower.ApplyRecovered: starts from a database whose indexes answer right but for what waits; an operation after one that has left stale answers, with no rebuilding in between, is not followed.
- Recovery.CatchUp: applies operations plainly; the looks at each key that its caller adds are in `Follower.FollowedShows`. A value that does not decode ends the caller's loop and is not modelled.
- Resp.ReadPayload: a payload end so large that adding two would leave the machine's range counts as incomplete; the code's addition would overflow there.
- TextIndexes.TextIndex.Build: a failure to open the file once it has been replaced (`text_index.rs:183`), or to open the old file again, leaves the old dictionary with no open file and is not modelled.
- Postings.Rebuild: the file takes what is written, because partial writes are repeated until done.
