# A model of the BaseMyAI storage engine

The project models the durability and index core of `basemyai-engine` and two companions from the crates
above it, and proves what the source and its documentation promise.

**The log and its checksum.** Records and batches as bytes (`Wal.dfy`), CRC-32 (`Checksum.dfy`), the log file
with its torn tails, plain or sealed record by record (`WalLog.dfy`). The register of the CRC is a list of bits,
so that the table-driven loop, linearity and error detection are all stated about one thing; `CrcReference.dfy` ties
it to the polynomial remainder that defines the checksum and to its published values. `WireLayout.dfy` writes out the
bytes every format begins with.

**SST files.** The five section codecs (`SstFormat.dfy`, `SstIndexFormat.dfy`), the bloom filter for arbitrary
hash functions (`Bloom.dfy`), sealed sections (`SstSections.dfy`), the writer (`SstFile.dfy`), the lazy reader
(`SstReader.dfy`) and index-driven scans (`SstScan.dfy`). A file is its bytes together with the context it is
opened with; plaintext and encrypted stores are the same model. `BlockSpike.dfy` is the prototype of that format.

**The store.** `Store.dfy` is the crash protocol as a transition system over the bytes on disk: append, memtable
update, flush (rename, truncate, clear), merge (rename, remove oldest first), errors reported on the way, failing
appends and removals, crashes at every durable boundary and inside an append, and reopening. `StepKeeps` says
exactly which steps are safe. `StoreRuns.dfy` proves crash consistency over whole runs of safe steps;
`FailedRemovals.dfy` and `FailedAppends.dfy` say what the two unsafe steps do. `Reads.dfy` and `Paging.dfy` prove
that lookups, scans and paged scans show exactly what a reopen would recover. `Engine.dfy` is the engine as a
class, in either mode, with its block cache, its I/O errors and the loops and order of steps of the source, each
durable step recorded as a step of the protocol. `Tables.dfy` and `Layers.dfy` are the tables and layers underneath.

**The block cache and the keys.** The LRU block cache against a recency list and its coherence with changing files
(`BlockCache.dfy`, `CachedReads.dfy`); the reserved keyspaces (`Keys.dfy`) and the expiry query over them
(`ExpiryScan.dfy`).

**Rebuilding derived indexes.** Mappings, allocator and full-text index (`Reindexing.dfy`, `MemoryFormats.dfy`), the
vector graph (`VectorRebuild.dfy`, `VectorFormats.dfy`), the whole run with its crashes and repetitions
(`Repair.dfy`), and the plan that asks for it (`RepairPlan.dfy`).

**Around it.** Key rotation (`CryptoStore.dfy`, `CryptoFormat.dfy`, `Aead.dfy`); the crash schedules (`Harness.dfy`);
rank fusion (`Rrf.dfy`); the rate limiter (`RateLimiter.dfy`).

## Assumptions

- A rename is atomic and durable, and so is truncating the log; a crash or an error inside an append leaves a prefix of
  what was being written. Fsync, paths and directories are not modelled beyond this.
- The cipher is ideal: sealing is an entry in a list in which no nonce repeats, opening succeeds exactly for an entry
  under the same key, nonce, associated data and ciphertext. A run is stated for the list of everything it ever seals.
  Of the key derivation only that it separates the keys in question is assumed.
- Lengths, offsets and counts fit the fields they are cast to, where a lemma says so (`InRange`, `LengthsFit`,
  `Writable`); where they are refused instead, the refusal is modelled. Numbers that only count (ticks, file numbers,
  statistics) do not wrap; the epoch of the vector index does.
- Of staging a document in the full-text index only that it reads and writes full-text keys is assumed (`FtsOnly`), of
  building the vector graph that it makes a live node for each vector it is given and no others, with that vector and
  with edges to other nodes only, no more than the parameters allow or one if they allow none, entered at the first
  (`Faithful`).
- Every call into a lock is one step. The limiter's timestamps do not decrease in lock order.
- Scores of rank fusion are exact reals.

## Where the code and its documentation disagree

- `crates/basemyai-engine/src/store/engine.rs:671-675` calls a failed removal of an old file after a merge a space leak.
  For one merge that is so, whatever the store holds, exactly when no file survives a newer one
  (`FailedRemovals.SurvivesIff`); for the next merge of the same process, exactly when every live key left over is still
  live (`FailedRemovals.NextMergeIff`). Otherwise a deleted key can come back (`FailedRemovals.DeletedKeyReturns`,
  `FailedRemovals.NextMergeReturns`).
- `crates/basemyai-engine/src/store/wal.rs:111-114` promises that a record is durable once its append returns. After an
  append that failed with some of its bytes written, and in a process that goes on, it is not: the next record lands
  behind the torn one and, unless what starts there happens to be a record itself, is refused or swallowed with it
  (`FailedAppends.AppendBehindTorn`, `FailedAppends.AcknowledgedUnitLost`).
- `crates/basemyai-engine/src/store/repair.rs:102-104` promises that a later call completes an interrupted rebuild. The
  mapping batch deletes and rewrites every mapping at once, so this holds up to the batch limit only
  (`Repairs.RerunSucceedsIff`, `Repairs.RerunRefused`), and the parameters of the vector index need not survive
  (`Repairs.ParamsSurviveIff`).
- `crates/basemyai-engine/src/store/repair.rs:179` takes the next vector id from the records alone, while the finding
  that calls for this rebuild compares it with every vector node and mapping
  (`crates/basemyai-engine/src/store/verify_logical.rs:310-322`). Tombstones are purged by the same rebuild, live
  vectors are not: `Repairs.AllocatorCuredIff` says when the finding is cured, `Repairs.AllocatorStaysStale` is a store
  where it is not.

## Model

| member | source | states |
|---|---|---|
| `WalFormat.DecodeEncoded` | crates/basemyai-engine/src/format/wal.rs:251-310 | decoding an encoded record, whatever bytes follow, gives the record back and its exact length; for every record whose lengths fit, well-formed or not: a delete with a value or a batch with a key is refused as corrupt, a put without a value comes back as an empty put |
| `WalFormat.DecodeTorn` | crates/basemyai-engine/src/format/wal.rs:243-310 | a record cut short anywhere reads as a torn tail, never as an error |
| `WalFormat.DecodeCanonical` | crates/basemyai-engine/src/format/wal.rs:251-310 | whatever `decode` accepts re-encodes to exactly the bytes consumed |
| `WalFormat.Encode` | crates/basemyai-engine/src/format/wal.rs:228-241 | the buffer built field by field is the record body followed by its checksum |
| `WalFormat.DecodeBatch` | crates/basemyai-engine/src/format/wal.rs:164-225 | the loop with its moving offset computes the recursive parse of the payload, every error case included |
| `WalFormat.BatchRoundTrip` | crates/basemyai-engine/src/format/wal.rs:136-225 | a batch decodes to itself if and only if it has at most 10,000 operations |
| `WalFormat.BatchCanonical` | crates/basemyai-engine/src/format/wal.rs:164-225 | whatever `decode_batch` accepts is the encoding of its result |
| `WalLog.ReplayPrefix` | crates/basemyai-engine/src/store/wal.rs:65-109 | replaying any byte prefix of a log, plain or sealed, gives exactly the operations of the records wholly in it: each batch whole or not at all, never an error |
| `WalLog.PlainReplayPrefix` | crates/basemyai-engine/src/store/wal.rs:65-109 | the same for the bytes a plaintext log really holds |
| `WalLog.SealedReplayPrefix` | crates/basemyai-engine/src/store/wal.rs:209-233 | any prefix of an encrypted log replays like the plain log cut at the same record boundary, under an ideal cipher with fresh nonces |
| `WalLog.ReplayCanonical` | crates/basemyai-engine/src/store/wal.rs:65-109 | the part of any file that replay accepts is the log of some sequence of appends, with the operations replayed |
| `WalLog.LogInjective` | crates/basemyai-engine/src/format/wal.rs:228-310 | two different sequences of appends never produce the same log |
| `WalLog.Wal.Replay` | crates/basemyai-engine/src/store/wal.rs:65-109 | returns what the log specification replays and cuts the torn tail off; on corruption the file is left alone |
| `WalLog.Wal.WriteRecord` | crates/basemyai-engine/src/store/wal.rs:139-161 | appends the record, or its envelope, and nothing else; a write that fails leaves the bytes that got out, a sync that fails all of them, and either is reported |
| `WalLog.OnDiskFrames` | crates/basemyai-engine/src/store/wal.rs:139-149 | what is written for a unit, plain or sealed, reads back as that unit whatever follows, and as a torn tail when cut short |
| `WalLog.Wal.AppendBatch` | crates/basemyai-engine/src/store/wal.rs:127-137 | one record for the whole batch, written or failing like any other, or a refusal that writes nothing when it is too long for replay |
| `Checksum.Crc32` | crates/basemyai-engine/src/format/checksum.rs:27-35 | the table-driven loop computes the bit-serial CRC-32 of IEEE 802.3, which the rows below tie to its definition and its published values |
| `Checksum.Table` | crates/basemyai-engine/src/format/checksum.rs:13-25 | every table entry is eight shift steps of its index |
| `Checksum.PolyValue` | crates/basemyai-engine/src/format/checksum.rs:9 | the polynomial, as a bit list, is 0xEDB88320 |
| `CrcReference.CrcIsRemainder` | crates/basemyai-engine/src/format/checksum.rs:9-35 | the checksum is the complemented remainder, by long division over the two-element field, of the message with its first 32 bits complemented and 32 zeros behind it |
| `CrcReference.Residue` | crates/basemyai-engine/src/format/checksum.rs:27-35 | every message followed by its own stored checksum has the checksum 0x2144DF1C |
| `CrcReference.CheckValue` | crates/basemyai-engine/src/format/checksum.rs:43-44 | the checksum of the digits 1 to 9 is 0xCBF43926 |
| `CrcReference.EmptyCrc` | crates/basemyai-engine/src/format/checksum.rs:47-50 | the checksum of nothing is zero |
| `Checksum.CrcDetectsWindow` | crates/basemyai-engine/src/format/checksum.rs:27-35 | two inputs of equal length that differ, and only inside four consecutive bytes, never share a checksum |
| `Checksum.ChecksumDetects` | crates/basemyai-engine/src/format/checksum.rs:27-35 | a section whose body changes within four consecutive bytes, or whose stored checksum changes, no longer matches |
| `Checksum.Places` | crates/basemyai-engine/src/format/checksum.rs:27-35 | every single byte up to the end of the stored checksum, and every four bytes in a row of the body, is a place where a change is detected |
| `WireLayouts.AcceptedBegins` | crates/basemyai-engine/format.lock:19-38 | a decoder accepts only bytes that begin with its own format's magic and version, which are written out byte by byte for all thirteen formats |
| `WireLayouts.FormatsDisjoint` | crates/basemyai-engine/format.lock:19-38 | so nothing one decoder accepts is accepted by another format's |
| `WireLayouts.TornBegins` | crates/basemyai-engine/src/format/crypto.rs:330-368 | what a log decoder takes for a torn tail is shorter than a header, of a sealed log than a magic, or begins as a log does |
| `WireLayouts.AssociatedData` | crates/basemyai-engine/src/format/crypto.rs:210-216 | the associated data of the three kinds of seal, byte by byte; no two kinds share any |
| `SstFormat.HeaderRoundTrip` | crates/basemyai-engine/src/format/sst_block.rs:201-261 | a header decodes to itself if and only if its block size is not zero |
| `SstFormat.HeaderCorruption` | crates/basemyai-engine/src/format/sst_block.rs:214-261 | a header changed in any one byte, or within four of its body, is refused |
| `SstFormat.DecodeSstDataBlock` | crates/basemyai-engine/src/format/sst_block.rs:319-390 | the cursor loop computes the recursive parse, every refusal included |
| `SstFormat.BlockRoundTrip` | crates/basemyai-engine/src/format/sst_block.rs:294-390 | a data block decodes to its entries; the count bound never refuses a genuine block |
| `SstFormat.BlockCorruption` | crates/basemyai-engine/src/format/sst_block.rs:319-390 | a data block changed in any one byte, or within four of its body, is refused |
| `SstFormat.BlockCanonicalIff` | crates/basemyai-engine/src/format/sst_block.rs:319-390 | an accepted data block re-encodes to itself if and only if no tombstone in it declares a value, read off its bytes; otherwise it is too long by just those values |
| `SstFormat.TombstoneValueIgnored` | crates/basemyai-engine/src/format/sst_block.rs:376-380 | a concrete block, a tombstone with a value, that is accepted and is not canonical |
| `SstFormat.FooterRoundTrip` | crates/basemyai-engine/src/format/sst_block.rs:693-765 | a footer decodes to itself |
| `SstFormat.FooterCorruption` | crates/basemyai-engine/src/format/sst_block.rs:709-765 | a footer changed in any one byte, trailing magic included, is refused |
| `SstIndexFormat.DecodeSstBlockIndex` | crates/basemyai-engine/src/format/sst_block.rs:458-552 | the cursor loop computes the recursive parse, every refusal included |
| `SstIndexFormat.IndexRoundTrip` | crates/basemyai-engine/src/format/sst_block.rs:438-552 | a block index decodes to itself; the count bound never refuses a genuine one |
| `SstIndexFormat.IndexCanonical` | crates/basemyai-engine/src/format/sst_block.rs:458-552 | accepted block-index bytes re-encode to themselves |
| `SstIndexFormat.IndexCorruption` | crates/basemyai-engine/src/format/sst_block.rs:458-552 | a block index changed in any one byte is refused |
| `SstIndexFormat.BloomRoundTrip` | crates/basemyai-engine/src/format/sst_block.rs:585-653 | a filter decodes to itself if and only if its bytes are the fewest that hold its bits |
| `SstIndexFormat.BloomCanonical` | crates/basemyai-engine/src/format/sst_block.rs:598-653 | accepted filter bytes re-encode to themselves |
| `SstIndexFormat.BloomCorruption` | crates/basemyai-engine/src/format/sst_block.rs:598-653 | a filter section changed in any one byte is refused |
| `Bloom.NoFalseNegatives` | crates/basemyai-engine/src/store/sst_block.rs:79-133 | every inserted key is a member, for whatever two hash functions |
| `Bloom.Insert` | crates/basemyai-engine/src/store/sst_block.rs:101-107 | inserting makes the key a member and takes no member away |
| `Bloom.PositionIs` | crates/basemyai-engine/src/store/sst_block.rs:91-107 | the bits probed are `h1` plus `i` times `h2` with its lowest bit set, reduced to 64 bits and then to the size of the filter |
| `Bloom.MemberIff` | crates/basemyai-engine/src/store/sst_block.rs:101-117 | a key is a member of a filter if and only if each of the seven bits it probes is probed by an inserted key |
| `SstSections.SectionOpensExactly` | crates/basemyai-engine/src/store/sst_block.rs:142-185 | a sealed section opens to what was sealed with its own file number, role and place, and with no others |
| `SstSections.OnlySealedOpens` | crates/basemyai-engine/src/store/sst_block.rs:164-185 | bytes that open at some coordinates are exactly what sealing wrote for them |
| `CryptoFormat.SstBlockAadInjective` | crates/basemyai-engine/src/format/crypto.rs:402-410 | no two section coordinates share their associated data |
| `CryptoFormat.WalEnvelopeTorn` | crates/basemyai-engine/src/format/crypto.rs:330-368 | an envelope cut short anywhere reads as a torn tail |
| `CryptoFormat.EncryptedSstBlockCanonical` | crates/basemyai-engine/src/format/crypto.rs:417-448 | an accepted section envelope is the encoding of what it decodes to |
| `SstFile.WriteNew` | crates/basemyai-engine/src/store/sst_block.rs:309-428 | the writer loop, in either mode, lays out header, blocks, index, filter and footer with their offsets on disk |
| `SstFile.BlocksPartition` | crates/basemyai-engine/src/store/sst_block.rs:244-278 | splitting into blocks loses nothing, keeps the order and makes no empty block, for every block size |
| `SstFile.BlocksFilled` | crates/basemyai-engine/src/store/sst_block.rs:244-278 | every block but the last reaches the block size in its encoded entries, and no block would without its last entry |
| `SstFile.FilterIs` | crates/basemyai-engine/src/store/sst_block.rs:79-107 | the filter of a file takes the fewest whole bytes with ten bits a key and 64 in all, and exactly the bits its keys probe are raised |
| `SstFile.TombstonesAre` | crates/basemyai-engine/src/store/sst_block.rs:244-278 | every entry that deletes its key counts one tombstone in the index, and no other counts |
| `SstReader.LoadWritten` | crates/basemyai-engine/src/store/sst_block.rs:439-529 | a written file, plain or sealed, opens to its own index and filter, unless it was written with block size zero |
| `SstReader.ReadWrittenBlock` | crates/basemyai-engine/src/store/sst_block.rs:536-572 | every indexed block of a written file reads back as its entries |
| `SstReader.GetWritten` | crates/basemyai-engine/src/store/sst_block.rs:588-619 | a point lookup in a written file is a linear search of all entries, and reads at most one block |
| `SstScan.ScanWritten` | crates/basemyai-engine/src/store/sst_block.rs:675-739 | a scan that skips and stops by the index finds exactly the wanted entries in order, for every pruning that prefix and range scans use |
| `SstScan.EntriesWithPrefix` | crates/basemyai-engine/src/store/sst_block.rs:675-698 | the prefix loop computes that scan |
| `SstScan.EntriesWithRange` | crates/basemyai-engine/src/store/sst_block.rs:713-739 | the range loop computes that scan; an empty range reads nothing |
| `SstScan.GenuineReads` | crates/basemyai-engine/src/store/sst_block.rs:626-633 | reading back every block of a file gives the table it was written from |
| `Store.StepKeeps` | crates/basemyai-engine/src/store/engine.rs:600-684 | a step of put, delete, batch, flush, merge or open, a reported error or a crash keeps the store recoverable, and changes what a reopen shows only by a whole record reaching the log, if and only if it is safe; just two steps can be unsafe: removing a file that hid a live key of an older one left over, and going on after an append failed with some of its bytes out |
| `Store.RemoveOldKeeps` | crates/basemyai-engine/src/store/engine.rs:668-682 | removing the next old file leaves what a reopen shows unchanged exactly when nothing below the merged file stays alive that it lacks |
| `Store.CleanRemovalSafe` | crates/basemyai-engine/src/store/engine.rs:668-682 | as long as nothing alive is left over, removing the oldest old file first is safe |
| `Store.AppendFailsKeeps` | crates/basemyai-engine/src/store/wal.rs:139-161 | going on after a failed append keeps the store recoverable if and only if none of the frame got out, or all of it and it says nothing the memtable does not |
| `Store.WholeIff` | crates/basemyai-engine/src/store/wal.rs:139-161 | after a failed append the log is whole if and only if none or all of the frame got out |
| `Store.ReopenSucceeds` | crates/basemyai-engine/src/store/engine.rs:227-300 | after any crash an open succeeds |
| `Store.AppendToLog` | crates/basemyai-engine/src/store/wal.rs:65-161 | a crash inside an append leaves the unit whole or absent |
| `Store.NewFile` | crates/basemyai-engine/src/store/sst_block.rs:389-416 | renaming a file into place replaces what an interrupted flush or merge left under its number and touches no other file |
| `StoreRuns.CrashConsistency` | crates/basemyai-engine/src/store/mod.rs:4-11 | after any run of safe steps, with any number of crashes, reported errors and harmless failures, a reopen recovers exactly the units that reached the log, whole and in order; every acknowledged unit is one of them, and each interruption leaves at most one unacknowledged |
| `StoreRuns.FaultFreeIsGentle` | crates/basemyai-engine/src/store/engine.rs:600-684 | a run is safe throughout if its removals and appends succeed or crash with the process |
| `StoreRuns.UninterruptedRun` | crates/basemyai-engine/src/store/engine.rs:369-423 | without interruptions every unit that a safe run logged was acknowledged |
| `FailedRemovals.SurvivesIff` | crates/basemyai-engine/src/store/engine.rs:668-682 | from every reachable store, and at every point of the removals after a merge, a reopen shows the same although those removals fail that a mask marks, if and only if in the mask no file survives a newer one |
| `FailedRemovals.MergeRemovalsIff` | crates/basemyai-engine/src/store/engine.rs:651-682 | the steps of one merge and its removals, some failing: the files left on disk, and that a reopen shows the same exactly when survivors and earlier leftovers hold no live key that the merge says is gone |
| `FailedRemovals.NextMergeIff` | crates/basemyai-engine/src/store/engine.rs:646-682 | the next merge of the same process, all of its own removals succeeding, is harmless exactly when every live key left over is still live |
| `FailedRemovals.LeftoverUntilNextMerge` | crates/basemyai-engine/src/store/engine.rs:646-682 | however the process goes on, the next merge puts every live key left over beneath what a reopen showed before, its own removals succeeding; nothing changes exactly if all of these keys are live |
| `FailedRemovals.RemovalFailureResurrects` | crates/basemyai-engine/src/store/engine.rs:669-682 | the steps by which a failed removal of an older file brings a deleted key back, against the comment that it is only a space leak |
| `FailedRemovals.DeletedKeyReturns` | crates/basemyai-engine/src/store/engine.rs:669-682 | a whole run from an empty directory: a put and a delete, both flushed and acknowledged, a merge that cannot remove the older file, a crash, and the deleted key is back |
| `FailedRemovals.NextMergeReturns` | crates/basemyai-engine/src/store/engine.rs:646-682 | a whole run: a put, flushed and merged, its file staying behind; a delete, acknowledged and flushed; a second merge that removes all its files, and the deleted key is back |
| `FailedAppends.TornThenMore` | crates/basemyai-engine/src/store/wal.rs:139-161 | the next records go behind the torn one, wherever it was cut: the log is refused (magic, version or operation torn); or the torn record swallows them all (its claimed length not reached, which is more than a gigabyte if its lengths are torn); or, if the log opens, what starts at the torn record is itself a record, checksum or seal included; behind a whole header of a sealed one, the torn record itself |
| `FailedAppends.AppendBehindTorn` | crates/basemyai-engine/src/store/wal.rs:139-161 | the same as two steps of the store, for every cut: the reopen is refused, or shows nothing of the unit whose caller was told it is safe, or what starts at the cut is a record |
| `FailedAppends.UnsyncedUnit` | crates/basemyai-engine/src/store/wal.rs:154-157 | when only the sync failed, readers go on without the unit and a reopen shows it |
| `FailedAppends.AcknowledgedUnitLost` | crates/basemyai-engine/src/store/engine.rs:369-376 | a whole run from an empty directory in which an append of any size fails after any of its first bytes, the next is acknowledged, and after a crash the store does not open or has lost it |
| `Reads.GetIsContents` | crates/basemyai-engine/src/store/engine.rs:430-445 | memtable first, then files newest to oldest, answers exactly what a reopen would recover |
| `Reads.ScanIsContents` | crates/basemyai-engine/src/store/engine.rs:462-508 | a scan lists exactly the recoverable entries it selects, ascending, tombstones dropped |
| `Paging.PageIsContents` | crates/basemyai-engine/src/store/engine.rs:532-598 | a page lists exactly the recoverable entries from its start to the start of the next page; the next page starts further on and never past the end |
| `Paging.PagesReassemble` | crates/basemyai-engine/src/store/engine.rs:513-531 | paging to the end, with any page limit, gives exactly what one scan of the range gives |
| `Paging.EntriesWithRangeLimited` | crates/basemyai-engine/src/store/sst_block.rs:755-790 | the limited loop stops after whole blocks once enough entries are collected; an empty range or a zero limit reads nothing |
| `Engines.Engine.Open` | crates/basemyai-engine/src/store/engine.rs:227-300 | opening what an earlier run left, in either mode, continues that run and shows the same contents |
| `Engines.Engine.Put` | crates/basemyai-engine/src/store/engine.rs:371-376 | log, memtable, any flush and merge are steps of the crash protocol; the contents change at one key and one unit is acknowledged, unless a file that the merge could not remove brings back a key, and exactly then. An I/O error anywhere is reported: in the append it leaves just the bytes that got out, later it leaves the unit in the contents |
| `Engines.Engine.Delete` | crates/basemyai-engine/src/store/engine.rs:380-385 | the same for a delete |
| `Engines.Engine.ApplyBatch` | crates/basemyai-engine/src/store/engine.rs:400-423 | all operations of a batch in order as one unit, or none: an empty batch is a no-op, a too long one is refused unwritten; I/O errors as in a put |
| `Engines.Engine.Flush` | crates/basemyai-engine/src/store/engine.rs:603-626 | write and rename, then truncate the log, then clear the memtable, then maybe merge; contents unchanged, whichever of these fails, but for removals of the merge |
| `Engines.Engine.Compact` | crates/basemyai-engine/src/store/engine.rs:651-684 | one file is left in the list; of the old ones just those stay on disk whose removal fails, and their live keys lie beneath the contents; the contents are the same exactly if these keys were live, and only then can the run still be trusted. Every removal is a step of the protocol, and the file's cached blocks go whether it succeeds or not; a failed merge changes nothing shown |
| `Engines.Engine.Get` | crates/basemyai-engine/src/store/engine.rs:430-445 | through memtable, files newest to oldest and the block cache, the value that the contents hold for the key; the cache stays coherent over puts, flushes and merges |
| `Engines.Engine.ScanPrefix` | crates/basemyai-engine/src/store/engine.rs:462-479 | every live key with the prefix, ascending, with its value |
| `Engines.Engine.ScanRange` | crates/basemyai-engine/src/store/engine.rs:488-508 | every live key of the half-open range, ascending, with its value |
| `Engines.Engine.ScanRangePage` | crates/basemyai-engine/src/store/engine.rs:532-598 | the merge of bounded sources up to their frontier |
| `Memtables.Memtable.Get` | crates/basemyai-engine/src/store/memtable.rs:34-36 | absent, tombstone and value are told apart |
| `Memtables.Memtable.Iter` | crates/basemyai-engine/src/store/memtable.rs:51-53 | ascending keys, each once, exactly the contents |
| `Layers.LiveOfOps` | crates/basemyai-engine/src/store/engine.rs:258-274 | replaying operations into a table is applying them to what clients see |
| `BlockCaches.BlockCache.Get` | crates/basemyai-engine/src/store/block_cache.rs:88-110 | returns the resident block, makes it the most recent one, counts a hit or a miss |
| `BlockCaches.BlockCache.Insert` | crates/basemyai-engine/src/store/block_cache.rs:118-145 | a resident block is left where it is; otherwise least recent blocks go until the new one fits or nothing is left, and it becomes the most recent |
| `BlockCaches.BlockCache.InvalidateSst` | crates/basemyai-engine/src/store/block_cache.rs:150-171 | exactly the blocks of that file go |
| `BlockCaches.EvictsShortestRun` | crates/basemyai-engine/src/store/block_cache.rs:126-135 | an insert evicts the shortest least-recent-first run whose keys and values make room |
| `BlockCaches.InsertFits` | crates/basemyai-engine/src/store/block_cache.rs:112-145 | after an insert no more bytes of keys and values are resident than the budget allows, or the new block is alone |
| `BlockCaches.BlockBytesIs` | crates/basemyai-engine/src/store/block_cache.rs:44-49 | a block counts as its keys and values together, which is its encoded size without 14 bytes of framing and nine for each entry |
| `BlockCaches.AscendsDistinct` | crates/basemyai-engine/src/store/block_cache.rs:51-62 | in every reachable state no block is resident twice, the ticks being strictly ascending |
| `CachedReads.CacheCoherence` | crates/basemyai-engine/src/store/block_cache.rs:84-171 | over any run of reads, fills, file creations and deletions, numbers reused or not, every hit is the content now on disk, nothing of a deleted file is resident, and hits and misses add up to the lookups |
| `CachedReads.GetThrough` | crates/basemyai-engine/src/store/sst_block.rs:588-619 | a lookup through the cache answers what the file holds, reads at most one block and none on a hit |
| `CachedReads.SearchBlock` | crates/basemyai-engine/src/store/sst_block.rs:614-618 | the binary search in a decoded block is a linear search |
| `Keys.PushLenPrefixed` | crates/basemyai-engine/src/key/mod.rs:301-309 | a field is appended with its length, or refused when the length would not fit |
| `Keys.PrefixIntervalExact` | crates/basemyai-engine/src/key/mod.rs:342-365 | the interval from a prefix to its computed bound is exactly the keys with that prefix, carries over 0xff included |
| `Keys.RecordAgentUpperBound` | crates/basemyai-engine/src/key/mod.rs:350-365 | the popping loop computes that bound |
| `Keys.RecordIntervalExact` | crates/basemyai-engine/src/key/mod.rs:314-365 | the bound exists for every agent, and a record key lies in the interval if and only if it is that agent's |
| `Keys.RecordRoundTrip` | crates/basemyai-engine/src/key/mod.rs:322-340 | a record key gives back its id, and no other record has it |
| `Keys.IdKeyExact` | crates/basemyai-engine/src/key/mod.rs:371-385 | exactly the keys built from an id decode, to that id |
| `Keys.IdKeyOrder` | crates/basemyai-engine/src/key/mod.rs:367-376 | byte order of id keys is numeric order |
| `Keys.SortableOrder` | crates/basemyai-engine/src/key/mod.rs:548-556 | byte order of flipped timestamps is numeric order over all of i64 |
| `Keys.ExpiryRoundTrip` | crates/basemyai-engine/src/key/mod.rs:573-605 | an expiry key decodes to its timestamp and id |
| `Keys.ExpiryOrder` | crates/basemyai-engine/src/key/mod.rs:573-578 | an agent's expiry keys sort by timestamp, then id |
| `Keys.ExpiryInRange` | crates/basemyai-engine/src/key/mod.rs:565-589 | the expiry range holds an entry if and only if it is the agent's and below the saturated successor of the time asked for |
| `Keys.ExpiryRangeExact` | crates/basemyai-engine/src/key/mod.rs:580-589 | it is exactly the agent's entries up to that time if and only if the time is below the largest timestamp |
| `ExpiryScans.DecodedLists` | crates/basemyai-engine/src/idx/memory/persistent.rs:551-579 | a range scan of any key set over these bounds decodes to exactly the agent's entries below the saturated bound, by time and then id, each once; it fails if and only if a key in the range is too short |
| `ExpiryScans.ScanExpiring` | crates/basemyai-engine/src/idx/memory/persistent.rs:563-579 | the query as a loop over the engine's range scan gives just that for the contents of the store |
| `Keys.EdgeKeysExact` | crates/basemyai-engine/src/key/mod.rs:207-264 | the scan of one node finds its own edges and no others; edge keys decode to their parts and are injective |
| `Keys.EdgeDecodeCanonical` | crates/basemyai-engine/src/key/mod.rs:235-245 | what the edge decoder accepts is exactly an encoding of its result |
| `Keys.PostingsExact` | crates/basemyai-engine/src/key/mod.rs:459-481 | the scan of one term finds that agent's postings for it and no others, in id order |
| `Keys.RegistryExact` | crates/basemyai-engine/src/key/mod.rs:633-659 | the registry decoder accepts exactly the registry keys, each as its own agent |
| `Keys.KeyspacesDisjoint` | crates/basemyai-engine/src/key/mod.rs:76-618 | no key lies in two reserved keyspaces, the two metadata keys among them |
| `RepairPlans.PlanRepair` | crates/basemyai-engine/src/store/repair.rs:50-89 | by kind of finding, which of the four rebuilds is planned, each once and if and only if one of the kinds written out for it is reported; all warnings; and an automatic repair is allowed exactly if every error is of a kind with a rebuild |
| `RepairPlans.AtRiskIs` | crates/basemyai-engine/src/store/repair.rs:66-86 | the errors reported as primary data at risk are those without a rebuild, in order |
| `Reindexing.ParseRecordKeyExact` | crates/basemyai-engine/src/store/repair.rs:133-155 | a key parses to an agent and an id if and only if it is their record key |
| `Reindexing.LoadedIsHeld` | crates/basemyai-engine/src/store/repair.rs:133-155 | loading gives exactly the records the store holds under their keys, one for each key |
| `Reindexing.LoadsIff` | crates/basemyai-engine/src/store/repair.rs:133-155 | it goes through if and only if every key of the keyspace is one that can be built and its value decodes |
| `Repairs.Store.RebuildIndexes` | crates/basemyai-engine/src/store/repair.rs:105-131 | the rebuild as loops over batches takes the specified durable steps of all three phases, and reports the counts, whether there was a vector index, and exactly the records without a live vector |
| `Repairs.Store.RebuildMappings` | crates/basemyai-engine/src/store/repair.rs:157-185 | one batch, and the error of the first record that repeats an id or does not encode |
| `Repairs.Store.RebuildFromStore` | crates/basemyai-engine/src/idx/vector/persistent.rs:728-812 | metadata deleted first, survey of the node blocks, blocks back and tombstones out in chunks, metadata last: the specified durable steps and errors |
| `VectorRebuilds.SurveyOfStore` | crates/basemyai-engine/src/idx/vector/persistent.rs:736-767 | the survey goes through exactly when every node block is sound and every live vector has the dimension, and finds each live vector and each tombstone |
| `VectorRebuilds.SurveyFails` | crates/basemyai-engine/src/idx/vector/persistent.rs:736-767 | the first block that is not acceptable decides the error: its key, its encoding, or the dimension asked for and the one found |
| `VectorRebuilds.VectorRunIs` | crates/basemyai-engine/src/idx/vector/persistent.rs:722-812 | the vector phase, the open that may itself rebuild included: no live vector and nothing outside the index changes at any crash; it goes through exactly when the live vectors have the dimension of the index; it leaves only live blocks, those of the graph over the live vectors, counted and entered by the metadata, one epoch on |
| `VectorRebuilds.FlushSteps` | crates/basemyai-engine/src/idx/vector/persistent.rs:775-784 | the blocks of the graph go to disk 512 at a time, the last step with what is left |
| `VectorRebuilds.PurgeSteps` | crates/basemyai-engine/src/idx/vector/persistent.rs:785-791 | the tombstones leave it 512 at a time |
| `VectorRebuilds.GraphedSame` | crates/basemyai-engine/src/idx/vector/persistent.rs:770-786 | rebuilt over the same live vectors with the same parameters, the node blocks are the same byte for byte, and so is the entry point |
| `VectorRebuilds.GraphedLeads` | crates/basemyai-engine/src/idx/vector/persistent.rs:770-795 | after a rebuild every edge leads from a live node to another one, none to a missing or tombstoned one, and no node has more than the parameters allow |
| `Repairs.RebuildKeepsPrimary` | crates/basemyai-engine/src/store/repair.rs:102-131 | after any number of its batches, whether it ends well or not, a rebuild has changed nothing primary and lost no live vector |
| `Repairs.RebuildSucceedsIff` | crates/basemyai-engine/src/store/repair.rs:105-231 | exactly what a rebuild needs: sound records and node blocks, distinct ids, the two batch sizes, a full-text index that fills, live vectors of the index's dimension; and its report |
| `Repairs.RebuildResumes` | crates/basemyai-engine/src/store/repair.rs:102-104 | a run after a crash anywhere, if it goes through, ends with the same live vectors and report as the uninterrupted run, but for whether there was an index; and in the same store down to the edges of the graph, but for the epoch of the index, if and only if the crash left an index with the same parameters |
| `Repairs.RerunSucceedsIff` | crates/basemyai-engine/src/store/repair.rs:157-195 | exactly when such a run goes through: twice the records plus two, and the full-text keys, each fit one batch, and the index, if anything is live, still asks for the same dimension |
| `Repairs.UniformRerunIff` | crates/basemyai-engine/src/store/repair.rs:157-231 | the batch sizes alone decide when all node blocks have the dimension of the index |
| `Repairs.RerunRefused` | crates/basemyai-engine/src/store/repair.rs:102-104 | from five thousand records on no such run goes through, for all stores and all parts, against the promise that a later call completes the work |
| `Repairs.RebuildNotResumable` | crates/basemyai-engine/src/store/repair.rs:102-104 | there are such stores: one of five thousand records rebuilds once and never again |
| `Repairs.ParamsSurviveIff` | crates/basemyai-engine/src/store/repair.rs:221-231 | wherever a rebuild crashes, a later run builds the graph with the same parameters again if and only if the metadata is still on disk, or they were the defaults for the dimension of the first block there; if the index opens as it is, the metadata is missing exactly between the first batch of the vector phase and the last |
| `Repairs.RebuildResult` | crates/basemyai-engine/src/store/repair.rs:105-185 | afterwards the vector id of every record held under its record key maps back to that agent and id, no other mapping is left, the allocator reads back as one past the greatest id, and the vector index is whole, every edge of it leading from a live node to another |
| `Repairs.ReportIs` | crates/basemyai-engine/src/store/repair.rs:105-131 | what a run reports, counted from the keys of the store it started on: mappings are records, documents those with content, and an agent and id are listed for re-embedding if and only if the store holds their record and no live vector for it |
| `Repairs.RebuiltMeta` | crates/basemyai-engine/src/idx/vector/persistent.rs:793-812 | the metadata a finished rebuild leaves: the same parameters, the live vectors counted, saturating, and the epoch one on if the index opened as it was, two on if opening rebuilt it first, two if there was no metadata |
| `Repairs.AllocatorOnDisk` | crates/basemyai-engine/src/store/repair.rs:157-185 | the mapping batch, which is what a plan names for a stale allocator, sets the counter as a run's first durable step, and no later step touches it |
| `Repairs.AllocatorCuredIff` | crates/basemyai-engine/src/store/verify_logical.rs:310-322 | after a rebuild the allocator is above every node and mapping left, which is what the finding asks, if and only if every live vector's id was at most some record's and no record has the last id |
| `Repairs.AllocatorStaysStale` | crates/basemyai-engine/src/store/repair.rs:179-183 | a concrete store with a live vector above all records: its rebuild succeeds and leaves the allocator below that vector |
| `MemoryFormats.VecMapRoundTrip` | crates/basemyai-engine/src/idx/memory/vecmap.rs:75-147 | a mapping record decodes to its owner |
| `MemoryFormats.MetaRoundTrip` | crates/basemyai-engine/src/idx/memory/meta.rs:63-109 | an allocator record decodes to its counter |
| `VectorFormats.EncodeNode` | crates/basemyai-engine/src/idx/vector/node.rs:115-140 | the loops write the specified block, or refuse counts that do not fit |
| `VectorFormats.NodeRoundTrip` | crates/basemyai-engine/src/idx/vector/node.rs:115-217 | a node block decodes to its node |
| `VectorFormats.VectorMetaRoundTrip` | crates/basemyai-engine/src/idx/vector/meta.rs:144-220 | a metadata record that fits its fields decodes, and to itself if and only if it has an entry point just when it counts a node |
| `CryptoStore.LoadExactly` | crates/basemyai-engine/src/crypto.rs:185-214 | the owner's key recovers the data key, any key derived differently is told it is wrong |
| `CryptoStore.LoadIs` | crates/basemyai-engine/src/crypto.rs:185-214 | a wrong key is told apart before the length of what the right one unwraps, 32 bytes, is checked |
| `CryptoStore.RotationCrash` | crates/basemyai-engine/src/crypto.rs:126-178 | crash a rotation anywhere and retry it: exactly one of the old and the new key recovers the unchanged data key |
| `CryptoStore.DataSurvivesRotation` | crates/basemyai-engine/src/crypto.rs:12-13 | what was sealed before a rotation opens after it |
| `CryptoStore.KeyDir.WriteMeta` | crates/basemyai-engine/src/crypto.rs:130-178 | seal, temporary file, fsync and rename are the four steps of a rotation |
| `BlockSpike.WriteFile` | crates/basemyai-engine/src/bin/block_spike.rs:222-299 | for every list of entries, the empty one included, the writer lays out blocks, index of last keys, filter and footer, plain or sealed |
| `BlockSpike.SplitFills` | crates/basemyai-engine/src/bin/block_spike.rs:222-299 | every block but the last reaches the block size, and no block would without its last pair |
| `BlockSpike.FilterIs` | crates/basemyai-engine/src/bin/block_spike.rs:435-470 | the filter takes the least power of two of bits with ten for every key, and exactly the bits its keys probe are raised |
| `BlockSpike.SearchBlock` | crates/basemyai-engine/src/bin/block_spike.rs:405-427 | the cursor loop computes the recursive search |
| `BlockSpike.SearchPairs` | crates/basemyai-engine/src/bin/block_spike.rs:405-427 | in a sorted block the early exit loses nothing |
| `BlockSpike.LookupWritten` | crates/basemyai-engine/src/bin/block_spike.rs:364-379 | a lookup in a written file is a linear search of the entries and reads one block or nothing |
| `BlockSpike.SpikeRoundTrip` | crates/basemyai-engine/src/bin/block_spike.rs:222-427 | for every nonempty sorted list, block size, hash functions and cipher: the file opens, lookups are linear searches, the scan counts every entry |
| `BlockSpike.SpikeEmpty` | crates/basemyai-engine/src/bin/block_spike.rs:222-427 | a file without entries opens and counts nothing, but its filter has no bits: every lookup divides by zero |
| `Harness.ChurnClosedForms` | crates/basemyai-engine/src/harness.rs:119-143 | the closed forms are the counts of a sequential replay: every 43rd step consolidates, every seventh of the others deletes, the rest insert; and the ids touched are exactly known |
| `Harness.ChurnSound` | crates/basemyai-engine/src/harness.rs:145-170 | every delete hits an id inserted before and not deleted yet, every insert takes a fresh id, and which of the three a step is follows from its residues |
| `Harness.GraphSound` | crates/basemyai-engine/src/harness.rs:192-209 | even steps add the next entity, odd steps link it to the one before: every edge follows both of its endpoints, every entity is new |
| `Harness.MemoryClosedForms` | crates/basemyai-engine/src/harness.rs:279-295 | the same for puts and forgets, every fifth step a forget |
| `Harness.MemorySound` | crates/basemyai-engine/src/harness.rs:297-312 | every forget hits a memory put before and not forgotten yet, every put takes the next id |
| `Rrf.RrfFuse` | crates/basemyai/src/retrieval.rs:33-84 | for every k that no rank in the rankings turns into a division by zero, every id once, scored by the sum over all its places, signals in order of first appearance, sorted by descending score and then id |
| `Rrf.ScoreInIs` | crates/basemyai/src/retrieval.rs:47-58 | every place of an id in a ranking adds one over k and its rank, counted from zero, and nothing else does |
| `Rrf.ScoreAtRank` | crates/basemyai/src/retrieval.rs:35-36 | in a ranking without repeats an id scores one over k and its rank |
| `Rrf.NoPoleIff` | crates/basemyai/src/retrieval.rs:51 | which k divide by zero: the integers from zero down that cancel a rank, so no positive one |
| `Rrf.OneRanking` | crates/basemyai/src/retrieval.rs:33-84 | for a positive k the fusion of a single ranking without repeats is that ranking, each id scored by its rank |
| `Rrf.FusionPermuted` | crates/basemyai/src/retrieval.rs:33-84 | another order of the rankings changes no id, no score and no position |
| `Rrf.ContributionsAre` | crates/basemyai/src/retrieval.rs:24-25 | the contributions of an id are exactly the signals that list it, each once |
| `Rrf.ContributionsOrder` | crates/basemyai/src/retrieval.rs:60-64 | they are in the order in which their signals first list the id |
| `RateLimiter.Limiter.CheckRememberRate` | crates/basemyai-rest/src/state.rs:67-87 | a call is accepted if and only if fewer than the limit were accepted in the closed window ending now; other agents are untouched |
| `RateLimiter.AcceptKeeps` | crates/basemyai-rest/src/state.rs:76-86 | accepting keeps every closed interval of the window's length within the limit, over the whole history |

## Left out

- Engines.Engine.Put: requires that the SSTs a following flush and merge would write have lengths that fit their fields; beyond that the source truncates lengths silently. Nor can it be called once a file that could not be removed has brought back a key.
- Engines.Engine.Delete: the same requirements.
- Engines.Engine.ApplyBatch: the same requirements.
- SstReader.GetWritten: the search inside a block is specified as a linear search; `CachedReads.SearchBlock` is the binary search of the source, equal to it on sorted blocks.
- FailedAppends.AppendBehindTorn: of a sealed log cut inside the nonce, whether the mixture is a seal that was made; that depends on the nonces drawn.
- Repairs.RebuildResumes: every run flushes the graph in the order in which `build` lists it; the source's order is that of a hash map, on which the blocks found after a crash depend, but not where a finished run ends.
- BlockSpike.SpikeRoundTrip: a nonempty list of puts; `BlockSpike.SpikeEmpty` is the empty one.
- Rrf.RrfFuse: the library sort is modelled as insertion into a sorted list.
- `Engine::compact_now`, `close` and `stats`: calls of the modelled flush and merge, and counters.
- Store generation metadata and the format lock (`format/store_meta.rs`, `format/lock.rs`), mixed-mode checks on open, offline verification, key-file resolution.
- Bytes-read statistics of the scans are bounded, not computed; tombstone statistics are written but not read back.
- The other three length-prefix helpers, entity, document-term and full-text statistics keys: the same shape as the modelled ones.
- UTF-8 validation in key and record decoders.
- DiskANN search, insertion and consolidation, distances, BM25, the tokenizer, graph traversal, memory records beyond vector id and content.
- Command line, REST routes, MCP server, bindings, configuration and benchmarks.
