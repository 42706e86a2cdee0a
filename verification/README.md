# mewDb: a verified model of the storage engine

mewDb is a small log-structured key-value store: writes go to a write-ahead log and an in-memory table, the
table is flushed to immutable SSTables listed in a manifest, and compaction merges those. This project models
everything below the command loop, byte for byte, and proves that the pieces fit together:

- **Formats.** `Bytes`, `Crc` (the CRC of section 8 of RFC 1952), `Order`, `Bloom`, `TableFormat`, `WalFormat` and
  `ManifestFormat` define what each file looks like and how each reader parses arbitrary bytes. `TableProofs`,
  `Tables` and `WalProofs` prove the round trips: a written table read by the full scan or by the indexed lookup
  is the memtable that was written, and log recovery keeps exactly the longest valid prefix of any file.
  `TableChecks` says what the table readers accept on arbitrary bytes.
- **Meaning.** `Views` defines the one abstract store, the fold of sets and deletes, and shows that flushing and
  compaction keep it. `Queries` does the same for `keys`, `range` and `prefix_scan`.
- **Crash safety.** `Storage` says what each system call does and what a power loss may leave. `Protocol` is a step
  relation over durable and volatile state with a crash allowed between any two steps. `ProtocolProofs`,
  `ProtocolSteps` and `Runs` prove the invariant and what every run promises.
- **Programs.** `Devices` (the data directory as a class whose calls may fail), `SsTableFile`, `SsTableWriter`,
  `SsTableReader` (class `SsTable`) and `Engine` (classes `Wal`, `Manifest`, `DbEngine`) are the C++ methods with
  their loops, fields and failure branches. Each public operation is proved to take the engine from one valid
  state to another by steps of the protocol (`Reach`), whichever call fails, so the run-level theorems apply to it,
  and to compute what the abstract store says. The disk counts its failed calls in a ghost field, and each operation
  is proved to fail only when a call failed or one of the source's own refusals applies.

Two words recur. An operation is *in effect* once its record is synced to the log. It is *in doubt* when its append
failed or was cut short: the store being served does not show it, but the next recovery may or may not find its record.
A `set` or `del` whose log write succeeded and whose flush then failed throws although the operation is in effect.

Running `dafny verify dfyconfig.toml` checks the whole project.

## Where code and documentation differ

The model follows the code.

- A data block's entry count has 64 bits (`src/ss_table.cpp:119`), not 32 (`include/ss_table.h:32`).
- The full scan stops by the header's entry count (`src/ss_table.cpp:413-414`), not at the Bloom filter's offset
  (`ss_table_schema.md:49-50`); `TableProofs.ScanReadBack` shows that on written files both stop at the same place.
- `subtract_vectors` promises the values of `curr` that are not in `remove` (`src/manifest.cpp:14`). With a repeated
  value this is false; `ManifestFormat.SubtractDropsRemoved` gives the exact condition and `SubtractKeepsRepeats` an
  input. Manifests are strictly ascending, so the engine is not affected (`SubtractIsSetDifference`).
- Writing a table with no entries divides zero by zero when the Bloom filter is sized, and a lookup in such a file
  takes a remainder by zero. `TableProofs.LookupDefined` says exactly when a lookup is defined. `flush` is public, so
  a caller could ask for it on an empty memtable; the engine itself never does.

## Model

| member | source | states |
|---|---|---|
| `Runs.RestartRecovers` | src/db_engine.cpp:10-105 | Power loss at any point of any run: whatever log, manifest and tables are found, replaying the log over the listed tables gives the operations in effect, plus the one in-doubt set or del exactly when its record survived |
| `Runs.ServesApplied` | src/db_engine.cpp:44-105 | In every reachable state with a running engine, memtable over listed tables is the fold of all operations in effect |
| `Runs.NothingIsLost` | src/db_engine.cpp:10-105 | What is served at any later point of a run, crashes and restarts between, is what was in effect earlier with later operations on top |
| `Runs.AppliedForever` | src/db_engine.cpp:10-105 | The operations in effect only grow along a run, across every crash and restart |
| `Runs.OnlyIssued` | src/db_engine.cpp:44-105 | A step adds at most one operation: the one just logged, or the one whose torn append turned out to have survived |
| `Runs.LogIsMemtable` | src/wal.cpp:118-166 | While no log write or truncation has failed, the memtable is the left-to-right replay of the log, the log is a clean print of its records, their indices are consecutive modulo 2^64 and `index` is one past the last |
| `Runs.SizeIsExact` | src/db_engine.cpp:26-58 | In every reachable state mem_table_size is the live bytes plus the key bytes of successful deletes since the last flush or restart |
| `Runs.ManifestsAlwaysGood` | src/manifest.cpp:126-191 | Every manifest a restart may find, in every reachable state, parses, lists strictly ascending indices below its next index, and every listed file is complete and synced |
| `Runs.ListedUntouched` | src/db_engine.cpp:234-324 | No step writes, reopens or deletes a file that some findable manifest lists |
| `Runs.RunInv` | src/db_engine.cpp:10-324 | The crash invariant holds in every state of every run |
| `Runs.BootKeeps` | src/wal.cpp:172-287 | Restarting from anything a power loss may leave keeps the invariant |
| `Runs.CutTailKeeps` | src/wal.cpp:268-278 | Cutting the log at the end of its valid prefix loses no operation, even if power fails before the cut is synced |
| `Runs.CrashKeeps` | src/db_engine.cpp:10-16 | From every state of every phase, a crash leaves only states a restart recovers from |
| `ProtocolProofs.UpSurvivesCrash` | src/db_engine.cpp:234-324 | At every phase of flush, compaction and log truncation, every findable log over every findable manifest means the operations in effect |
| `ProtocolProofs.FoundDoubtful` | src/wal.cpp:148-164 | If the record of a failed append survived in full, the restart's meaning is the old one with that operation applied |
| `ProtocolProofs.AppendedLog` | src/wal.cpp:129-165 | A clean log plus one printed record recovers to the old records plus that one |
| `ProtocolProofs.TornLog` | src/wal.cpp:148-164 | A clean log plus a strict part of one more record recovers to the old records |
| `ProtocolSteps.WorkKeeps` | src/db_engine.cpp:44-324 | Every step of set, del, flush and compact keeps the running engine's invariant |
| `ProtocolSteps.AppendKeeps` | src/db_engine.cpp:46-105 | A synced record with the memtable following it keeps log, memtable, size and meaning in step |
| `ProtocolSteps.TornAppendKeeps` | src/wal.cpp:148-163 | An append that stops anywhere leaves the served store unchanged and exactly one operation in doubt |
| `ProtocolSteps.NewMeaning` | src/manifest.cpp:126-154 | The manifest a flush or a compaction installs means what the old one meant under the memtable, and under the replayed log |
| `ProtocolSteps.NewCatalogGood` | src/manifest.cpp:126-154 | The list a flush or a compaction installs is strictly ascending, below its next index, with complete files |
| `ProtocolSteps.SwapKeeps` | src/manifest.cpp:175-191 | Between rename and directory sync both the old and the new manifest mean the same store |
| `ProtocolSteps.CutDoneKeeps` | src/wal.cpp:291-300 | Once the flushed table is listed, emptying the log changes no findable meaning |
| `ProtocolSteps.DiscardKeeps` | src/db_engine.cpp:290-296 | Deleting an old file after a committed compaction removes nothing that any findable manifest lists |
| `Engine.DbEngine.Start` | src/db_engine.cpp:12-16 | On anything a restart may find, start-up is a run of the protocol and fails exactly when a system call failed; after success the manifest is open, the log accepts writes, and a get of any key answers with its binding among the operations in effect |
| `Engine.DbEngine.RecoverSet` | src/db_engine.cpp:26-33 | Replaying a set binds the key and keeps mem_table_size equal to the live bytes, with no unsigned underflow |
| `Engine.DbEngine.RecoverDel` | src/db_engine.cpp:37-42 | Replaying a del leaves a tombstone and keeps mem_table_size equal to the live bytes |
| `Engine.DbEngine.Set` | src/db_engine.cpp:46-59 | A run of the protocol; succeeds exactly when key and value lengths fit 32 bits, the log was accepting writes, no system call failed, and the manifest was open if the new size calls for a flush; then the store is the old one with the binding added, the size is below the limit and log and manifest stay usable; otherwise the operation is in effect, in doubt, or refused |
| `Engine.DbEngine.Del` | src/db_engine.cpp:87-105 | Returns false exactly for keys without a live value, and true exactly when the key is live, the log was accepting writes, no system call failed and the manifest was open where it is needed; then the store is the old one without the key and the size is below the limit |
| `Engine.DbEngine.Get` | src/db_engine.cpp:63-83 | The store's own binding of the key, through memtable and indexed lookups newest first |
| `Engine.DbEngine.Exists` | src/db_engine.cpp:159-161 | Whether the store binds the key |
| `Engine.DbEngine.Keys` | src/db_engine.cpp:130-156 | Exactly the store's keys, each before the next at the first byte where they differ |
| `Engine.DbEngine.Range` | src/db_engine.cpp:165-197 | Exactly the live bindings not before the smaller bound and not after the larger, each before the next at the first byte where they differ |
| `Engine.DbEngine.PrefixScan` | src/db_engine.cpp:201-228 | Exactly the live bindings whose first bytes are the prefix, each before the next at the first byte where they differ |
| `Engine.DbEngine.Gather` | src/db_engine.cpp:132-148 | The newest-first insert-if-absent loop over scans yields the wanted part of the merged tables under the memtable |
| `Engine.DbEngine.MergeScan` | src/db_engine.cpp:137-147 | One table's scan merged under what the newer tables said |
| `Engine.DbEngine.CheckMemTableSizeToFlush` | src/db_engine.cpp:120-126 | Below the limit nothing happens; otherwise it succeeds exactly when the manifest was open and no system call failed, leaving the size below the limit and the store unchanged |
| `Engine.DbEngine.Flush` | src/db_engine.cpp:304-324 | A run of the protocol that never changes the store; succeeds exactly when the manifest was open and no system call failed, and then the memtable is the newest table, log and memtable are empty and the manifest is open |
| `Engine.DbEngine.Compact` | src/db_engine.cpp:234-299 | A run of the protocol that never changes the store; succeeds exactly when the manifest was open and no system call failed, and then one table of the live bindings (or none) replaces all and the old files are gone |
| `Engine.DbEngine.MergeTables` | src/db_engine.cpp:241-251 | Full scans merged newest first give the oldest-first overwrite of all tables |
| `Engine.DbEngine.DeleteOld` | src/db_engine.cpp:290-296 | Deletes every old file unless a system call fails, stopping there, and leaves the listed tables as they were |
| `Engine.Wal.Write` | src/wal.cpp:118-166 | Succeeds exactly when the arguments are valid, the log accepts writes and no system call failed; success appends exactly one synced record and advances the index; failure leaves a prefix of it and latches; refused writes change nothing |
| `Engine.Wal.ReadRecord` | src/wal.cpp:195-248 | One turn of the recovery loop over arbitrary bytes is the record parser, with its stop reason |
| `Engine.Wal.ReplayRecord` | src/wal.cpp:250-256 | An accepted record extends the memtable's replay by one and sets the index past it |
| `Engine.Wal.ReplayLog` | src/wal.cpp:193-257 | The loop ends at the end of the valid prefix with the memtable being the replay of its records |
| `Engine.Wal.Recover` | src/wal.cpp:172-287 | Fails exactly when a system call failed; success leaves the memtable replayed, the log cut to its valid prefix and synced, writes open, and the index one past the last record or 0; torn is reported only when the file ends inside the record that stopped recovery, corrupt exactly when no continuation of the file could change what was found |
| `Engine.Wal.Truncate` | src/wal.cpp:291-308 | Fails exactly when a system call failed; success leaves an empty synced log that accepts writes and an unchanged index; failure stays latched with the log old or empty |
| `Engine.AppendRecord` | src/wal.cpp:145-163 | The ten writes of a record append it whole, or a prefix of it on failure |
| `Engine.Manifest.Load` | src/manifest.cpp:46-80 | An existing manifest is opened and parsed into the counters, a missing one is created empty; fails exactly when a system call failed or the header does not parse, and success leaves the manifest open |
| `Engine.Manifest.GetIndices` | src/manifest.cpp:89-116 | The list in the file, or a throw when the stream is closed or a number does not parse |
| `Engine.Manifest.AddNew` | src/manifest.cpp:126-132 | Installs the old list plus idx with next index idx + 1 and leaves the manifest open, exactly when the old list can be read and no system call failed; otherwise the old manifest stays or the new one is not yet synced |
| `Engine.Manifest.Remove` | src/manifest.cpp:136-141 | Installs the old list minus the removed indices, keeping the next index and leaves the manifest open, exactly when the old list can be read and no system call failed; otherwise the old manifest stays or the new one is not yet synced |
| `Engine.Manifest.Replace` | src/manifest.cpp:146-153 | Installs the old list minus the removed indices plus the new one and leaves the manifest open, exactly when the old list can be read and no system call failed; otherwise the old manifest stays or the new one is not yet synced |
| `Engine.Manifest.WriteManifest` | src/manifest.cpp:159-191 | Fails exactly when a system call failed; the counters change exactly when the rename happened and then agree with the installed text; success means the rename is synced and the manifest open |
| `WalProofs.RecoverySound` | src/wal.cpp:195-257 | On arbitrary bytes the replayed records re-encode byte for byte to the kept prefix |
| `WalProofs.RecoveryLongest` | src/wal.cpp:195-257 | On arbitrary bytes no longer prefix of the file is a concatenation of valid records |
| `WalProofs.RecoveryTorn` | src/wal.cpp:193-286 | After any records, any strict prefix of one more is cut off, reported as torn and never as corrupt |
| `WalProofs.RecoveryClean` | src/wal.cpp:193-286 | A log of whole records is replayed and kept whole |
| `WalProofs.RecoveryIdempotent` | src/wal.cpp:268-278 | Recovering the cut file gives the same records and cuts nothing more |
| `WalProofs.RecoveryOfCut` | src/wal.cpp:268-278 | Cutting a file anywhere at or after its valid prefix does not change what is recovered |
| `WalProofs.TornMeansShort` | src/wal.cpp:193-245 | On arbitrary bytes, "torn" is reported only when the file ends inside the header of the record that stopped recovery or before the end its lengths give |
| `WalProofs.CorruptMeansFinal` | src/wal.cpp:199-245 | On arbitrary bytes, "corrupt" is reported exactly when no continuation of the file could change what recovery finds |
| `WalProofs.StepStays` | src/wal.cpp:195-248 | More bytes after the file change no verdict on a record but a torn one |
| `WalProofs.RecordAccepted` | src/wal.cpp:148-248 | A record that write laid out is accepted as itself |
| `WalProofs.AcceptedIsPrinted` | src/wal.cpp:195-248 | Anything accepted is byte for byte what write would lay out |
| `WalProofs.RecordOnPrefix` | src/wal.cpp:195-245 | On a prefix of the file a valid record is either accepted or torn, never corrupt |
| `WalProofs.HeaderChain` | src/wal.cpp:82-92 | The field-by-field header checksum is one pass over the serialised header without its magic |
| `WalProofs.RecordChain` | src/wal.cpp:95-100 | The continued checksum is one pass over header fields, key and value, skipping the stored header checksum |
| `Crc.Chain` | src/ss_table.cpp:81-210 | Continuing a CRC over a second field is one CRC over both |
| `Crc.CheckValue` | src/wal.cpp:82-92 | The modelled CRC has the standard check value of zlib's |
| `Bytes.LastByteWeighsMost` | src/ss_table.cpp:109-113 | Integers are stored least significant byte first |
| `ManifestFormat.ManifestReadsBack` | src/manifest.cpp:159-168 | The text printed for any 64-bit next index and list parses back to the same next index, count and list |
| `ManifestFormat.DecimalReadsBack` | src/manifest.cpp:160-167 | A printed number reads back |
| `ManifestFormat.LeadingNumberSnoc` | src/manifest.cpp:67-71 | Digits are read most significant first |
| `ManifestFormat.NoLeadingZero` | src/manifest.cpp:160-167 | No number but 0 is printed with a leading zero |
| `ManifestFormat.HeaderNeedsMagic` | src/manifest.cpp:56-59 | Only a file whose first line is the magic word is accepted |
| `ManifestFormat.NextLine` | src/manifest.cpp:101-113 | getline walks a printed text line by line and fails after the last one |
| `ManifestFormat.SubtractVectors` | src/manifest.cpp:15-42 | The two-pointer loop computes the recursive subtraction on any two lists |
| `ManifestFormat.SubtractIsDifference` | src/manifest.cpp:15-42 | On ascending inputs the result is the multiset difference |
| `ManifestFormat.SubtractSorted` | src/manifest.cpp:15-42 | The result of an ascending list is ascending |
| `ManifestFormat.SubtractIsSetDifference` | src/manifest.cpp:136-153 | On strictly ascending lists the result is strictly ascending and holds exactly the indices not removed |
| `ManifestFormat.SubtractDropsRemoved` | src/manifest.cpp:14-15 | The comment's promise, that no removed value remains, holds exactly when curr repeats no removed value more often than remove does |
| `ManifestFormat.SubtractKeepsRepeats` | src/manifest.cpp:14-42 | A concrete pair of lists on which a removed value remains |
| `TableProofs.LookupCorrect` | src/ss_table.cpp:555-621 | On any written file and any key, the indexed lookup answers found, tombstone or not found exactly as the records say |
| `TableProofs.LookupStored` | src/ss_table.cpp:555-621 | The lookup of a stored key returns its own binding |
| `TableProofs.LookupMissing` | src/ss_table.cpp:588-618 | The lookup of an absent key finds nothing, whatever the Bloom filter says |
| `TableProofs.SparseIndexComplete` | src/ss_table.cpp:506-529 | upper_bound lands just past the one block that holds record i |
| `TableProofs.BelowEverything` | src/ss_table.cpp:597-618 | upper_bound is begin() exactly when the key is below every stored key |
| `TableProofs.BlockOfWritten` | src/ss_table.cpp:515-529 | The offset recorded for block j parses to exactly the j-th chunk of records |
| `TableProofs.BlockLacks` | src/ss_table.cpp:606-617 | No block holds an entry for a key that was not stored |
| `TableProofs.FindInPresent` | src/ss_table.cpp:606-617 | The loop without early exit ends with the only matching entry |
| `TableProofs.ScanReadBack` | src/ss_table.cpp:379-476 | The full scan of a written file passes every check, returns the records in order and stops exactly at the Bloom filter's offset |
| `TableProofs.BlocksReadBack` | src/ss_table.cpp:412-473 | Scanning on from any block collects the remaining records, the short last block included |
| `TableProofs.BlockReadBack` | src/ss_table.cpp:280-342 | A written block parses to its entries under a matching checksum |
| `TableProofs.EntryReadBack` | src/ss_table.cpp:292-331 | A written entry parses to itself and continues the checksum over exactly its bytes |
| `TableProofs.EntryChecksum` | src/ss_table.cpp:81-92 | The per-field entry checksum is the CRC of the entry's serialised bytes |
| `TableProofs.HeaderReadBack` | src/ss_table.cpp:96-114 | A written header passes magic, index and checksum tests and yields the entry count |
| `TableProofs.FooterReadBack` | src/ss_table.cpp:201-233 | A written footer yields its two offsets |
| `TableProofs.BloomReadBack` | src/ss_table.cpp:155-172 | A written filter block yields its bit array and hash count |
| `TableProofs.SparseReadBack` | src/ss_table.cpp:176-276 | A written sparse index yields its keys and offsets |
| `TableProofs.Layout` | src/ss_table.cpp:482-548 | The five parts of a file sit at the offsets the writer recorded for them |
| `TableChecks.HeaderAccepted` | src/ss_table.cpp:387-410 | On arbitrary bytes the header is accepted only with the magic number, this table's index and the checksum of its own fields |
| `TableChecks.BlockAccepted` | src/ss_table.cpp:280-342 | On arbitrary bytes a block is accepted only with as many entries as it says and the checksum of all its bytes |
| `TableChecks.FooterAccepted` | src/ss_table.cpp:214-233 | On arbitrary bytes the footer is accepted exactly when it is what the writer prints for its offsets |
| `TableChecks.BloomAccepted` | src/ss_table.cpp:562-586 | On arbitrary bytes the filter is accepted exactly when it is what the writer prints for its bits and hash count |
| `TableChecks.SparseAccepted` | src/ss_table.cpp:237-276 | On arbitrary bytes the sparse index is accepted exactly when it is what the writer prints for its entries |
| `TableProofs.EmptyLookup` | src/ss_table.cpp:497-501 | A file written for no entries has a filter of no bytes, on which every lookup is undefined |
| `TableProofs.LookupDefined` | src/ss_table.cpp:571-591 | A lookup on a file written for some records is defined exactly when there is at least one record |
| `Tables.ScanHolds` | src/ss_table.cpp:379-476 | The file written for a memtable scans to exactly its bindings in ascending key order |
| `Tables.LookupHolds` | src/ss_table.cpp:555-621 | The indexed lookup in the file written for a memtable agrees with the memtable on every key |
| `Tables.CollectListing` | src/ss_table.cpp:627-637 | Rebuilding a map from the scanned entries gives back the memtable |
| `SsTableFile.InsertToBloomFilter` | src/ss_table.cpp:44-57 | The in-place loop sets exactly the key's positions |
| `SsTableFile.IsPresentInBloomFilter` | src/ss_table.cpp:61-78 | True exactly when all of the key's positions are set |
| `SsTableFile.WriteHeaderBlock` | src/ss_table.cpp:96-114 | Success appends exactly the header; failure touches only this file |
| `SsTableFile.WriteDataBlock` | src/ss_table.cpp:118-151 | Success appends exactly the block with the checksum over its bytes |
| `SsTableFile.WriteBloomFilterBlock` | src/ss_table.cpp:155-172 | The byte-by-byte loop appends exactly the filter block |
| `SsTableFile.WriteSparseIndexBlock` | src/ss_table.cpp:176-198 | Success appends exactly the sparse index block |
| `SsTableFile.WriteFooterBlock` | src/ss_table.cpp:201-210 | Success appends exactly the footer |
| `SsTableWriter.WriteBlocks` | src/ss_table.cpp:489-529 | One pass over the memtable leaves header and blocks in the file, the finished Bloom filter and the sparse index in memory |
| `SsTableWriter.WriteContents` | src/ss_table.cpp:482-546 | Success leaves a file that holds the memtable |
| `SsTableWriter.WriteToSsTable` | src/ss_table.cpp:482-549 | Fails exactly when a system call failed; success leaves a synced and named file that holds the memtable; failure touches nothing but this file |
| `SsTableReader.SsTable.ReadHeader` | src/ss_table.cpp:383-410 | The header parser with its cursor |
| `SsTableReader.SsTable.ReadSsTable` | src/ss_table.cpp:379-476 | The scan loop computes the file parser's entries and leaves the cursor where it ends |
| `SsTableReader.SsTable.ReadFooterBlock` | src/ss_table.cpp:214-233 | The footer parser |
| `SsTableReader.SsTable.ReadBloomFilter` | src/ss_table.cpp:562-586 | Reading the filter byte by byte is one pass over the block |
| `SsTableReader.SsTable.ReadSparseIndexBlock` | src/ss_table.cpp:237-276 | The sparse index parser |
| `SsTableReader.SsTable.ReadDataBlockByOffset` | src/ss_table.cpp:280-342 | The block parser at an offset |
| `SsTableReader.SsTable.GetValue` | src/ss_table.cpp:555-621 | The method on fields and loops computes the indexed lookup |
| `SsTableReader.SsTable.GetKeys` | src/ss_table.cpp:626-647 | Exactly the file's bindings, or the one asked for, each before the next at the first byte where their keys differ |
| `SsTableReader.SsTable.GetRange` | src/ss_table.cpp:651-675 | Exactly the file's bindings not before start and not after end, each before the next at the first byte where their keys differ |
| `SsTableReader.SsTable.GetPrefix` | src/ss_table.cpp:679-702 | Exactly the file's bindings whose first bytes are the prefix, each before the next at the first byte where their keys differ |
| `Bloom.NoFalseNegatives` | src/ss_table.cpp:44-78 | Every inserted key tests present in the finished filter |
| `Bloom.BuildExact` | src/ss_table.cpp:44-57 | A bit of the finished filter is set exactly when some inserted key marks it |
| `Bloom.InsertExact` | src/ss_table.cpp:44-57 | An insert sets the key's positions and clears or sets no other bit |
| `Bloom.SetBit` | src/ss_table.cpp:51-55 | Or-ing one bit in sets that bit and changes no other |
| `Bloom.Position` | src/ss_table.cpp:49-52 | The byte index is always inside the array |
| `Bloom.PositionWraps` | src/ss_table.cpp:48-52 | Wrapping the product and the sum at 64 bits, as the loop does, gives the specified position |
| `Order.SortedIsSorted` | src/ss_table.cpp:509-513 | Map iteration visits every key once, each before the next at the first byte where they differ |
| `Order.LessMeans` | src/db_engine.cpp:167-190 | The key comparison holds exactly of a proper prefix and its extension, or when the first differing byte is smaller |
| `Order.PrefixConvex` | src/ss_table.cpp:693-699 | Nothing between a prefix and a key extending it fails to extend it |
| `Order.PrefixRun` | src/db_engine.cpp:219-226 | The keys extending a prefix are one run starting at lower_bound, the empty prefix included |
| `SsTableReader.ExtendingMeans` | src/ss_table.cpp:696 | The prefix test holds exactly of keys whose first bytes are the prefix |
| `SsTableReader.WithinMeans` | src/ss_table.cpp:667-668 | A key is in range unless it comes before start or after end at the first differing byte |
| `Order.RangeRun` | src/db_engine.cpp:188-195 | The loop from lower_bound(start) to the first key above end visits exactly the keys between the bounds |
| `Views.WriteThrough` | src/db_engine.cpp:46-105 | Changing the memtable changes the store as the operation says |
| `Views.FlushKeeps` | src/db_engine.cpp:304-321 | The memtable as newest table means the same store, with or without the memtable (or its replayed log) still over it |
| `Views.CompactionKeeps` | src/db_engine.cpp:234-275 | One compacted table without tombstones, or no table when nothing is live, means what all the old tables meant under any memtable |
| `Views.AbsorbIsMerge` | src/db_engine.cpp:241-251 | Newest-first insert-if-absent is oldest-first overwrite |
| `Views.NewestBindingIsMerge` | src/db_engine.cpp:70-82 | Stopping at the newest table that knows a key gives its binding in the merge |
| `Views.LiveBytesUpdate` | src/db_engine.cpp:26-42 | How the live bytes change when one binding is replaced |
| `Queries.MergeRows` | src/db_engine.cpp:143-147 | The merge loop keeps every binding it had and adds a row's exactly when its key was missing |
| `Queries.MergeEntries` | src/db_engine.cpp:246-250 | The same for compaction's loop over scanned entries |
| `Queries.DropLoop` | src/db_engine.cpp:254-260 | Erasing while iterating removes exactly the tombstones |
| `Queries.LiveRunIsView` | src/db_engine.cpp:188-227 | The live rows of the wanted run of the merged map are the wanted part of the store |
| `Queries.LiveKeys` | src/db_engine.cpp:150-155 | The keys collected in order are the store's sorted keys |
| `Operations.AfterTable` | src/ss_table.cpp:482-549 | However far writing a table got, the outcome is reachable by protocol steps |
| `Operations.AfterManifest` | src/manifest.cpp:159-191 | However far installing a manifest got, the outcome is reachable by protocol steps |
| `Operations.AfterTruncate` | src/wal.cpp:291-308 | However far truncating the log got, the outcome is reachable by protocol steps |
| `Operations.AfterRecovery` | src/wal.cpp:268-286 | A completed recovery is reachable from what the restart found |
| `Operations.StartedContents` | src/db_engine.cpp:12-16 | A started engine serves what the disk meant before it started |

## Left out

- Engine.DbEngine.Flush: requires a memtable with at least one entry, because for none the source's sizing is undefined (see above); the engine's own calls meet this.
- Engine.DbEngine.Set: requires that the next SSTable index is below 2^64 - 1, as do Del, Flush and Compact; overflow of the index is not modelled.
- SsTableWriter.BloomSizing: any size of at least one byte and any count of at least one hash function; the floating-point formula and false-positive rates are not modelled.
- SsTableReader.SsTable.GetValue: a short read or an empty filter is a throw, where the source goes on with uninitialised values or divides by zero; on files the writer produced this cannot happen.
- Engine.Wal.Recover: the message on stderr is only its reason (`why`); read errors of the device during recovery are not modelled, only failures of the cut and of its sync.
- Devices.Disk: the platform code of `src/file_io.cpp` is its contract only: a synced append is durable, an unsynced one leaves a prefix, a rename is atomic but may be undone by a power loss until the directory is synced, a truncated log is old or empty until synced, an unsynced SSTable may be anything after a power loss, and every open for writing, close, write, sync, rename and removal may fail, as may reopening the log or the manifest.
- Reads of listed files are assumed to succeed and to return what was written; opening the log and syncing its directory (`src/wal.cpp:104-113`) always succeeds.
- C++ exceptions and false returns are one failure result; the constructor of `DbEngine` is split into an object with empty fields and `Start`.
- `mem_table_size` is unbounded above; that it never underflows is proved.
- `std::upper_bound` and `lower_bound` are modelled by the position they return, not by their search.
- `keys`, `range` and `prefix_scan` share one merging loop (`Gather`) that the source repeats three times.
- An SSTable's stream sees the file's contents as of opening; the engine never writes a file that it is reading.
- xxHash is an arbitrary function; nothing is claimed about which corruptions a CRC detects; integers are little-endian as on the supported hosts.
- The command loop (`main.cpp`), the prototypes under `practice/`, performance and concurrency.
