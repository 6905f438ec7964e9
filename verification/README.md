# kududown: the storage engines, modelled and proved

kududown is an abstract-leveldown binding for Apache Kudu that carries two vendored C++ engines, Snappy 1.1.4 and
LevelDB 1.20. This project models five parts of it in Dafny, in the form the code has: buffers are arrays with indices,
objects are classes whose methods change their fields, loops are loops. Each method is proved against a specification,
and the properties are proved of the specification.

**Snappy.** `SnappyFormat` holds the reference: a decoder on sequences of bytes, and `CopyWithin`, the byte-at-a-time
copy. `SnappyMatch`, `SnappyCopy`, `SnappyEmit` and `SnappyCompress` are the compressor: word-wise match search, the
pattern-doubling copy, the tag emitters, the hash-table scan and the block loop, for an arbitrary hash that lands inside
the table. `SnappyTable` is the tag table. `SnappySource`, `SnappyDecompress` and `SnappyApi` are the decoder over a
source that hands out regions of any size, with its 32-bit counts of them, and `SnappyWriters`, `SnappyIOVec` and
`SnappyScattered` its four writers. Compressing and decompressing gives the input back, for every hash, every cut of the
input, every cut of the compressed bytes into regions shorter than 2^32 bytes, and every writer with room. Verdict and
output of the decoder are a function of the compressed bytes alone.

**The log.** `LogFormat` says what the writer appends and how a reader parses a flat file; `LogIO` holds the writer and
the block-wise reader, proved to do just that, over a file whose calls may fail. `LogFragments` says without a reader
which records stand in a file of any bytes; the reader returns these and no others. `LogTheorems` has the round trip, the
log cut at any byte, the writer reopened, the reader opened at any offset, and records given up half-way; `LogDamage`,
what no writer leaves. `WriteBatches` and `Recovery` put batches on top: a log of batches cut at any byte recovers the
entries of exactly the whole batches that fit. `RecoveredTables` says of any file what goes to which table, what stays
in memory, and when recovery fails. `Durability` joins the two ends: what a run of writers was told is on disk is among
what recovery gives back, as long as no attempt before it in the same file failed or is short of a trailer; `LostWrites`
has the runs in which one is, and the record is lost.

**Writes, snapshots and compaction.** `GroupCommit` builds the group of a leader; `GroupCommitRuns` is `DBImpl::Write`
as a state machine whose steps are the stretches between two points where another thread can be seen, over every
interleaving of any number of threads. `Compaction` is the compaction loop with its two drop rules and the forward-only
cursors of `IsBaseLevelForKey`; `CompactionMeaning` shows exactly when reads at or above the smallest snapshot do not
change, and how they change when they do; `Snapshots` is the ring of snapshots, and `SnapshotRuns` carries that over
to every run of writes, snapshots and compactions, which there run between their start and their end while the other
events go on. `StoreRuns` draws the conclusion: over such a run the database is the map that the writes make, and a
snapshot is that map as it was. `CompactionInputs` is the choice of the tables to compact, and `CompactedVersions` puts
a compaction into a version with its levels: what may be dropped there, what the new version is, and that lookups find
in it what they found before.

**Ordered views.** `SkipLists` is the skip list over a memory of nodes and links. Each store of `Insert` is one step,
recorded in a history; the invariant is proved for each, and a search by another thread is a sequence of loads at
moments of such a history. `DbFormat` and `MemTables` are internal keys and the memtable, on encoded bytes. `DbIter` is
the bidirectional iterator; its specification is the list of shown entries, `View`. `Lookups` is a single lookup,
through the memtables and the levels of files; it gives what reading the union of them gives.

**Scan delivery.** `ScanDelivery` is the path of rows from the Kudu scanner through `IteratorNext`, the worker's
reversed array and the JavaScript iterator's cache.

`VersionEdits` is the encoding of version edits. `Bytes` and `Coding` hold little-endian words and varints. `Formats`
describes what is stored byte by byte, apart from the functions that encode it.

## What the proofs found

Where the code does less than is said of it, there is an input that shows it, and the exact condition is proved; only
what becomes of a log behind a failed write is left one-sided, as checksums decide there.

- `VersionEdit::Clear` does not clear `compact_pointers_` (version_edit.cc:26-39), so decoding into an edit that has
  some puts the new ones after them. The round trip is exact if and only if there were none (`EditRoundTrip`); a fresh
  edit has none.
- A log reader opened at an offset is to start at the first record at or after it (log_reader.h:41-42). It returns
  exactly those, but it also reports corruption on an intact log exactly when the offset is inside a block (neither at
  its start nor in its last five bytes) and a record that starts before it has a fragment after it (`FalseAlarms`):
  `resyncing_` is given up at the first physical record skipped, which the parser hands out as a bad record
  (log_reader.cc:84-93, 271-276).
- `Compress` writes its length modulo 2^32, so its output decodes back if and only if the input is shorter than 2^32
  bytes (`Compress`); a write batch reads back if and only if every key and value is (`BatchRoundTrip`).
- The decoder adds 1 to a long literal's length in 32 bits, so four length bytes of ff stand for an empty literal, which
  is accepted (snappy.cc:683-684). The reference decoder does the same (`EmptyLongLiteral`).
- `peeked_` and the counts in `RefillTag` are 32-bit numbers. A source with a region of 2^32 bytes or more is never read
  to its end (`UncountableNeverEnds`, `StitchingStalls`); with shorter regions the decoder is exact
  (`InternalUncompress`).
- A copy into a list of buffers ignores what `Append` answers (snappy.cc:1016), so with too little room it may succeed,
  cut short; the length check at the end refuses it (`RawUncompressToIOVec`).
- A write whose key or value has 2^32 bytes or more may fail while it is inserted, and readers then see a part of its
  batch, as the last sequence number moves over all of it (`PartOfABatch`). Exactly when readers see whole batches is
  `SeenWhole` and `WholeExactly`; they do when all keys and values are shorter (`NoPartialBatch`).
- Outputs of a compaction may be cut between two entries of one user key (`SplitByCompaction`). If the one that ends
  with a deletion is compacted without the other, the deleted value comes back (`DeletedValueComesBack`). Exactly when
  answers change is `CompactionIsExact` for one smallest snapshot, `SafeCompaction` for all, and `RunIsExact` over
  runs. The choice of tables in version_set.cc compares user keys and lets this happen; it takes all entries it should
  if and only if no table taken shares the user key at its edge with its neighbour (`TakesAllExactly`), and then nothing
  comes back (`VersionKeepsAnswers`, `PickAndCompact`).
- A failed append to the log sets no background error (db_impl.cc:1223-1241), and the writers that follow go on behind
  what it left. A header without its data hides them from recovery, sync or not, without a report
  (`LostBehindTornRecord`, `TornRecordHides`); so does the torn end of a log that is reused (db_impl.cc:458-470).
- The log writer does not look at whether the trailer of a block was written (log_writer.cc:53). When its last byte is
  missing, the next record, if shorter than 256 bytes, is lost without a report although all writes and the sync
  succeeded (`LostBehindMissingTrailer`, `LastByteOfTrailer`). What was synced is recovered if no attempt up to it in
  its file failed or is short of a trailer (`SyncedIsRecovered`), which `AddRecord` rules out where no trailer is due.
- A record of type 5 in a log is taken for the end of the file (log_reader.h:83); `ReadRecord` says where its
  promises end then.
- A log reader does not report that skipping to its offset failed, nor that the first block it reads cannot be read,
  unless that is the block at the start of the file, where the unsigned difference in `ReportDrop` wraps
  (log_reader.cc:192-225; `SkipToInitialBlock`, `FirstReadError`).
- Compaction needs the smallest snapshot below `kMaxSequenceNumber`. At that number the marker for "no newer entry"
  reads as a hidden one, and every entry is dropped (`LastSequenceDropsAll`).
- The limit of a scan counts rows fetched, not rows handed out. A batch that reaches it and is cut at the high-water
  mark is never handed out to its end, so fewer rows than the limit may come (`LimitCutsShort`); without a limit, or
  with fewer rows in the table, all do (`ReadAll`).
- With a high-water mark of 0, `IteratorNext` succeeds without a row, for ever. The delivery theorems ask for a positive
  one; the contract of `IteratorNext` states both.
- In `DBIter::Next`, the branch for an inner iterator that ran out after a change of direction cannot be reached
  (db_iter.cc:146-171); the proof closes it.
- A write whose append fails still moves the last sequence number on (db_impl.cc:1215-1245). The model does the same:
  its numbers are then used up, and no entry carries them.

## Model

| member | source | states |
|---|---|---|
| `SnappyFormat.CopyWithinIsPeriodic` | `deps/snappy/snappy-1.1.4/snappy.cc:97-125` | copying byte by byte with overlap gives exactly the one extension of the output that repeats with the period of the offset, and nothing else does |
| `SnappyFormat.EmitsThenEmits` | `deps/snappy/snappy-1.1.4/snappy.cc:636-720` | bytes that decode from x to y, followed by bytes that decode from y to z, decode from x to z, whatever follows them |
| `SnappyFormat.LiteralEmits` | `deps/snappy/snappy-1.1.4/snappy.cc:212-255` | the bytes of a literal of any length below 2^32 decode to that literal |
| `SnappyFormat.EmptyLongLiteral` | `deps/snappy/snappy-1.1.4/snappy.cc:680-686` | a long literal whose four length bytes are all ff has length 2^32, which is 0 in the 32 bits the code adds in: it is an item that stands for nothing, and 00 FC FF FF FF FF decodes to the empty output |
| `SnappyFormat.ShortCopyEmits` | `deps/snappy/snappy-1.1.4/snappy.cc:257-277` | the bytes of a copy of 4 to 64 bytes, in the two-byte or three-byte form, decode to that copy |
| `SnappyFormat.CopyEmits` | `deps/snappy/snappy-1.1.4/snappy.cc:279-304` | a copy of any length, split into pieces of 64, 60 and the rest, decodes to the one copy it stands for, overlap included |
| `SnappyFormat.CopyOfMatch` | `deps/snappy/snappy-1.1.4/snappy.cc:488-498` | a copy from where the text matched reproduces the text |
| `SnappyTable.CharTableMeaning` | `deps/snappy/snappy-1.1.4/snappy-internal.h:178-222` | each of the 256 entries of the tag table packs the length, the high offset bits and the number of extra bytes of that tag |
| `SnappyMatch.FindLSBSetNonZero` | `deps/snappy/snappy-1.1.4/snappy-stubs-internal.h:403-414` | the answer is the place of the lowest bit that is set: it is set and all below are clear |
| `SnappyMatch.FindLSBSetNonZero64` | `deps/snappy/snappy-1.1.4/snappy-stubs-internal.h:417-425` | the same for 64 bits, by halves |
| `SnappyMatch.LowestBitIsFirstDifference64` | `deps/snappy/snappy-1.1.4/snappy-internal.h:86-131` | the lowest set bit of the xor of two little-endian words, divided by 8, is the first byte in which they differ, and they agree before it |
| `SnappyMatch.FindMatchLength64` | `deps/snappy/snappy-1.1.4/snappy-internal.h:86-132` | the length is the longest common prefix up to the limit, compared byte by byte, also when the regions overlap; the flag is exactly length < 8; nothing past the limit is read |
| `SnappyMatch.FindMatchLength32` | `deps/snappy/snappy-1.1.4/snappy-internal.h:136-159` | the same for the 4-byte form |
| `SnappyCopy.UnalignedCopy64` | `deps/snappy/snappy-1.1.4/snappy.cc:91-93` | eight bytes are stored, nothing else changes |
| `SnappyCopy.IncrementalCopySlow` | `deps/snappy/snappy-1.1.4/snappy.cc:116-125` | byte-at-a-time copy extends the output with the period of the offset and touches nothing from its limit on |
| `SnappyCopy.DoublePattern` | `deps/snappy/snappy-1.1.4/snappy.cc:165-186` | doubling a pattern shorter than 8 leaves a correctly extended prefix, with a distance of at least 8 that is a multiple of the pattern |
| `SnappyCopy.IncrementalCopy` | `deps/snappy/snappy-1.1.4/snappy.cc:127-208` | pattern doubling, the 16-byte loop, the 8-byte tail and the slow finish give the same bytes up to the limit as the byte-at-a-time copy, and change nothing at or past the end of the buffer |
| `SnappyEmit.EmitLiteral` | `deps/snappy/snappy-1.1.4/snappy.cc:212-255` | on the fast path and the slow path alike the memory up to the returned end is the old prefix followed by the bytes of the literal |
| `SnappyEmit.EmitCopyAtMost64` | `deps/snappy/snappy-1.1.4/snappy.cc:257-277` | the two forms store the bytes of a short copy; the 4-byte store for 3 bytes stays inside the memory |
| `SnappyEmit.EmitCopy` | `deps/snappy/snappy-1.1.4/snappy.cc:279-304` | the loop stores the bytes of a copy of any length and returns their end |
| `SnappyEmit.LiteralCost` | `deps/snappy/snappy-1.1.4/snappy.cc:65-87` | a literal costs at most 3 bytes more than it holds, and one byte up to 60 |
| `SnappyEmit.CopyCost` | `deps/snappy/snappy-1.1.4/snappy.cc:65-87` | a copy always costs less than the bytes it stands for |
| `SnappyCompress.ScanForMatch` | `deps/snappy/snappy-1.1.4/snappy.cc:448-469` | the skipping search ends with a candidate strictly before ip whose four bytes match, or with none; the table only ever holds places already passed |
| `SnappyCompress.EmitCopyRun` | `deps/snappy/snappy-1.1.4/snappy.cc:485-516` | however many copies follow one literal, what is written decodes to the input consumed so far |
| `SnappyCompress.CompressFragment` | `deps/snappy/snappy-1.1.4/snappy.cc:400-527` | for any hash that lands inside the table, the bytes written decode, after any earlier output, to that output followed by the input; 30 times their number is at most 31 times the input plus 90; bytes before op stay |
| `SnappyCompress.Log2Floor` | `deps/snappy/snappy-1.1.4/snappy-stubs-internal.h:386-401` | the floor of the binary logarithm, and -1 for zero |
| `SnappyCompress.GetHashTable` | `deps/snappy/snappy-1.1.4/snappy.cc:318-349` | a zeroed table of a power of two between 256 and 16384 entries, the smallest that is not below the input unless it is the largest |
| `SnappyCompress.HashInsideTable` | `deps/snappy/snappy-1.1.4/snappy.cc:57-63` | the multiplicative hash, shifted as the code shifts it, is an index of the table |
| `SnappyCompress.CodeHashIsAHashFamily` | `deps/snappy/snappy-1.1.4/snappy.cc:52-63` | the hash of the code is one of the hashes for which the compressor is proved |
| `SnappyCompress.Encode32` | `deps/snappy/snappy-1.1.4/snappy-stubs-internal.h:474-506` | the varint of the length modulo 2^32 |
| `SnappyCompress.ReadBlock` | `deps/snappy/snappy-1.1.4/snappy.cc:822-856` | the block handed to the compressor is the next bytes of the source however the source cuts them, and after the pending advance exactly those are consumed |
| `SnappyCompress.WrittenReadsBack` | `deps/snappy/snappy-1.1.4/snappy.cc:809-888` | what the block loop writes decodes to the input if that is shorter than 2^32 bytes, and to nothing otherwise |
| `SnappyCompress.Compress` | `deps/snappy/snappy-1.1.4/snappy.cc:809-888` | for every input, cut in any way, and every hash: the output decodes to the input if and only if it is shorter than 2^32 bytes, and never exceeds MaxCompressedLength, the room that is needed |
| `Bytes.RoundTrip32` | `deps/snappy/snappy-1.1.4/snappy-stubs-internal.h:452-506` | a 32-bit number reads back from its varint, with the bytes after it left |
| `Bytes.MaskedLoad` | `deps/snappy/snappy-1.1.4/snappy.cc:682-707` | loading more bytes than needed and masking the word gives the bytes needed |
| `SnappySource.Source.Peek` | `deps/snappy/snappy-1.1.4/snappy-sinksource.h:119-132` | a region is the front of what is left, and empty only at the end |
| `SnappySource.Source.Skip` | `deps/snappy/snappy-1.1.4/snappy-sinksource.h:134-137` | exactly the skipped bytes are gone, across regions, and the regions that are left are the old ones from there on |
| `SnappyWriters.SnappyArrayWriter.Append` | `deps/snappy/snappy-1.1.4/snappy.cc:1096-1105` | succeeds exactly when the reference decoder accepts the literal, and then appends it; the memory outside the output stays |
| `SnappyWriters.SnappyArrayWriter.TryFastAppend` | `deps/snappy/snappy-1.1.4/snappy.cc:1107-1118` | when it succeeds it did what Append does; when not it did nothing |
| `SnappyWriters.SnappyArrayWriter.AppendFromSelf` | `deps/snappy/snappy-1.1.4/snappy.cc:1120-1134` | the offset check by unsigned wrap-around and the room check accept exactly the copies the reference decoder accepts, and the result is the overlapping copy |
| `SnappyWriters.SnappyDecompressionValidator.Append` | `deps/snappy/snappy-1.1.4/snappy.cc:1180-1183` | accepts exactly what the reference decoder accepts, counting only |
| `SnappyWriters.SnappyDecompressionValidator.AppendFromSelf` | `deps/snappy/snappy-1.1.4/snappy.cc:1187-1194` | accepts exactly the copies the reference decoder accepts |
| `SnappyIOVec.SnappyIOVecWriter.Append` | `deps/snappy/snappy-1.1.4/snappy.cc:939-967` | over any list of buffers, empty ones and ones too small included: true exactly when the bytes fit both the announced length and the buffers, and then they are appended; otherwise nothing is, or the buffers are full |
| `SnappyIOVec.SnappyIOVecWriter.TryFastAppend` | `deps/snappy/snappy-1.1.4/snappy.cc:969-982` | when it succeeds the sixteen-byte store did what Append does |
| `SnappyIOVec.SnappyIOVecWriter.AppendFromSelf` | `deps/snappy/snappy-1.1.4/snappy.cc:984-1053` | walking back through the buffers and copying piece by piece gives the overlapping copy; refused exactly where the reference decoder refuses it, if the buffers have room; without room it may answer true for a copy cut short, but then the buffers are full |
| `SnappyScattered.SnappyScatteredWriter.Append` | `deps/snappy/snappy-1.1.4/snappy.cc:1286-1296` | the same verdict and output when the output is in blocks |
| `SnappyScattered.SnappyScatteredWriter.SlowAppend` | `deps/snappy/snappy-1.1.4/snappy.cc:1330-1358` | a literal that crosses block boundaries; the verdict is again that of the reference decoder |
| `SnappyScattered.SnappyScatteredWriter.TryFastAppend` | `deps/snappy/snappy-1.1.4/snappy.cc:1298-1310` | when it succeeds it did what Append does; when not it did nothing |
| `SnappyScattered.SnappyScatteredWriter.AppendFromSelf` | `deps/snappy/snappy-1.1.4/snappy.cc:1312-1326` | the fast test for a copy inside the last block and the slow path together accept and produce what the reference decoder does |
| `SnappyScattered.SnappyScatteredWriter.SlowAppendFromSelf` | `deps/snappy/snappy-1.1.4/snappy.cc:1361-1379` | byte by byte across blocks it is the overlapping copy |
| `SnappyScattered.SnappyScatteredWriter.Flush` | `deps/snappy/snappy-1.1.4/snappy.cc:1395-1410` | the blocks, flushed in order and the last one cut, are the output |
| `SnappyDecompress.SnappyDecompressor.RefillTag` | `deps/snappy/snappy-1.1.4/snappy.cc:726-781` | with every region shorter than 2^32 bytes, the 32-bit counts are exact: what is left to read is unchanged, byte for byte, and afterwards a whole tag is in the buffer; it fails at the end of input, or when a tag is cut short, and only then |
| `SnappyDecompress.HugeNeverPassed` | `deps/snappy/snappy-1.1.4/snappy.cc:726-781` | whatever sequence of the three ways of going on in the source (peek the next region, release what was peeked, stitch) the decompressor takes, a region of 2^32 bytes or more stays ahead: the end of the source is never reached |
| `SnappyDecompress.StitchingStalls` | `deps/snappy/snappy-1.1.4/snappy.cc:756-764` | with a multiple of 2^32 bytes in the region one turn of the loop that stitches a tag together changes nothing, so it goes on for ever |
| `SnappyDecompress.SnappyDecompressor.AppendLiteral` | `deps/snappy/snappy-1.1.4/snappy.cc:688-703` | a literal spread over any number of regions is appended whole, or refused exactly when it is too long for the input or the output |
| `SnappyDecompress.SnappyDecompressor.StepLiteral` | `deps/snappy/snappy-1.1.4/snappy.cc:670-704` | one literal tag is one step of the reference decoder, by the fast store or not, or both are stuck; the length wraps in 32 bits |
| `SnappyDecompress.SnappyDecompressor.StepCopy` | `deps/snappy/snappy-1.1.4/snappy.cc:706-718` | one copy tag is one step of the reference decoder, or both are stuck |
| `SnappyDecompress.SnappyDecompressor.DecompressAllTags` | `deps/snappy/snappy-1.1.4/snappy.cc:636-720` | for every writer and every cut of the input into regions shorter than 2^32 bytes, the loop ends at the end of input exactly when the reference decoder accepts and there is room, with its output |
| `SnappyApi.ReadUncompressedLength` | `deps/snappy/snappy-1.1.4/snappy.cc:610-631` | reading the length byte by byte from any regions is parsing a 32-bit varint from the flat bytes |
| `SnappyApi.Parse32WithLimit` | `deps/snappy/snappy-1.1.4/snappy-stubs-internal.h:452-472` | accepts and returns exactly what the 32-bit varint grammar does, the fifth byte below 16 |
| `SnappyApi.InternalUncompress` | `deps/snappy/snappy-1.1.4/snappy.cc:784-802` | verdict and output are a function of the bytes alone, the same for every cut into regions that 32 bits can count and for all four writers, except that buffers too small for the output refuse it |
| `SnappyApi.UncountableNeverEnds` | `deps/snappy/snappy-1.1.4/snappy.cc:726-781` | the converse: if a region after the length has 2^32 bytes or more, then however the decompressor goes on in its source it never comes to the end, and so never succeeds |
| `SnappyApi.RawUncompress` | `deps/snappy/snappy-1.1.4/snappy.cc:1142-1150` | into a flat buffer: the output is in place if and only if the bytes are valid |
| `SnappyApi.RawUncompressToIOVec` | `deps/snappy/snappy-1.1.4/snappy.cc:1056-1070` | into buffers of any sizes: true if and only if the bytes are valid and the buffers together hold the output, and then every byte of it is in its buffer |
| `SnappyApi.IsValidCompressed` | `deps/snappy/snappy-1.1.4/snappy.cc:1197-1206` | true exactly for what the reference decoder accepts |
| `SnappyApi.UncompressToSink` | `deps/snappy/snappy-1.1.4/snappy.cc:1457-1461` | into blocks that are flushed: same verdict, same bytes |
| `SnappyApi.RoundTrip` | `deps/snappy/snappy-1.1.4/snappy.cc:52-56` | Compress then InternalUncompress, for an arbitrary hash, an arbitrary cut of the compressed bytes into regions shorter than 2^32 bytes and any writer with room, always gives back an input of n bytes if that is less than 2^32; the compressed bytes never exceed 32 + n + n/6 |
| `LogIO.Writer.constructor` | `deps/leveldb/leveldb-1.20/db/log_writer.cc:22-31` | a writer opened on a file of any length knows its place in the block |
| `LogIO.Writer.AddRecord` | `deps/leveldb/leveldb-1.20/db/log_writer.cc:36-82` | whatever calls on the file fail, exactly what may be left is stated: of the trailer that was due some first part, of the fragments all if the status is OK and else a first part, and where the writer then takes itself to be; so if no trailer was due, or it is there, OK means that the whole record is in the file |
| `LogFormat.LeavesAll` | `deps/leveldb/leveldb-1.20/db/log_writer.cc:36-109` | a writer that reports success has written the whole record if no trailer was due where it stood, or if as many bytes are there as there should be; and one that fails with no trailer due leaves a first part of it |
| `LogIO.Writer.EmitPhysicalRecord` | `deps/leveldb/leveldb-1.20/db/log_writer.cc:84-109` | the header with the masked checksum, the length and the type, then the data, then a flush, each only if the one before succeeded; the file grows by a first part of header and data, all of it if the status is OK; the block offset moves on in any case |
| `LogIO.Reader.SkipToInitialBlock` | `deps/leveldb/leveldb-1.20/db/log_reader.cc:36-58` | the reader stands at the block of the offset, or the next one from offset 32763 of a block on; a skip that fails is never reported |
| `LogIO.Reader.ReportDrop` | `deps/leveldb/leveldb-1.20/db/log_reader.cc:192-197` | a drop is counted exactly when the unsigned difference of the position and the bytes is at or after the initial offset; for bytes that were read that is when they lie there, for a block that was not read the difference may wrap |
| `LogIO.FirstReadError` | `deps/leveldb/leveldb-1.20/db/log_reader.cc:192-225` | opened at an offset outside the last five bytes of a block: that the first block cannot be read is reported if and only if it is the block at the start of the file |
| `LogIO.Reader.ReadPhysicalRecord` | `deps/leveldb/leveldb-1.20/db/log_reader.cc:199-281` | block-wise reading is parsing the flat file at the reader's position: same type, same data, same next position, same reports; a block that cannot be read ends the file, with one report when the drop counts |
| `LogIO.Reader.OnFragment` | `deps/leveldb/leveldb-1.20/db/log_reader.cc:84-178` | the switch over fragment types is the assembly step of the specification, each report counted |
| `LogFragments.ReturnedStands` | `deps/leveldb/leveldb-1.20/db/log_reader.cc:84-182` | for any bytes at all: a record that is returned stands in the file, from the offset that is given for it to where the reader then is, as one full fragment, or as a first one, middle ones and a last one that follow each other, with right headers and checksums, and its data is theirs in order |
| `LogFragments.TakesRoom` | `deps/leveldb/leveldb-1.20/db/log_reader.cc:84-182` | such a record ends at least as many bytes after its offset as it is long, and a header more |
| `LogFragments.StandingIsReturned` | `deps/leveldb/leveldb-1.20/db/log_reader.cc:95-144` | the converse: a record that stands where the reader comes to is returned, with its offset and its end, whatever was being put together of another one; that is dropped, with one report if there was anything of it |
| `LogIO.Reader.ReadRecord` | `deps/leveldb/leveldb-1.20/db/log_reader.cc:60-182` | called any number of times, from any initial offset: the next record of the flat file, its offset, the position after it and the number of reports; the record returned stands in the file from that offset to that position, full or fragment by fragment; it starts at or after the initial offset, so no later call skips again; if a call on the file fails there is none, and at most one more report; after the end, or a failed read, every further call fails without a report, even when it skips to the initial offset once more |
| `LogIO.ReadToEnd` | `deps/leveldb/leveldb-1.20/db/log_reader.cc:60-182` | calling ReadRecord until it fails, from any initial offset, gives the records and the number of reports that the specification of reading a whole file says; if a call on the file fails, a first part of those records, with at most one report more |
| `LogTheorems.ReadsRecord` | `deps/leveldb/leveldb-1.20/db/log_reader.cc:60-182` | a whole record, fragmented anywhere, is read back with its start offset and no report |
| `LogTheorems.CutRecord` | `deps/leveldb/leveldb-1.20/db/log_reader.cc:216-243` | a record cut at any byte is neither returned nor reported |
| `LogTheorems.LogRoundTrip` | `deps/leveldb/leveldb-1.20/db/log_writer.cc:36-109` | reading a log gives exactly the records written, in order, and no report |
| `LogTheorems.WriteThenRead` | `deps/leveldb/leveldb-1.20/db/log_writer.cc:36-109` | records written by the writer, one AddRecord each, and read by the reader until it fails: exactly those records and no report |
| `LogTheorems.ReopenedWriter` | `deps/leveldb/leveldb-1.20/db/log_writer.cc:22-31` | records added by a writer reopened at the current length are the same log as one writer's |
| `LogTheorems.FittingIsLongest` | `deps/leveldb/leveldb-1.20/db/log_reader.cc:60-182` | the number of records that fit is the longest prefix whose bytes are inside the cut |
| `LogTheorems.CutLog` | `deps/leveldb/leveldb-1.20/db/log_reader.cc:60-281` | a log cut at any byte gives exactly the records that fit, and no report |
| `LogTheorems.OpenedAnywhere` | `deps/leveldb/leveldb-1.20/db/log_reader.cc:36-182` | a reader opened at any offset of a log, cut or not, returns exactly the whole records whose first fragment starts at or after it; every report it makes is counted |
| `LogTheorems.FalseAlarms` | `deps/leveldb/leveldb-1.20/db/log_reader.cc:84-149` | an intact log is reported corrupt exactly when the offset is inside a block and a record straddles it |
| `LogTheorems.WholeRecordsFirst` | `deps/leveldb/leveldb-1.20/db/log_reader.cc:60-182` | whatever follows whole records in a file, the reader returns them first, without a report |
| `LogTheorems.GivenUpIsDropped` | `deps/leveldb/leveldb-1.20/db/log_reader.cc:95-130` | a log, then some first fragments of a record but not its last, then whole records: the reader returns exactly the whole records, and reports once what it drops between them, if that is more than a header and a record follows |
| `LogTheorems.GivenUpIsLeft` | `deps/leveldb/leveldb-1.20/db/log_writer.cc:59-81` | a writer may leave just those fragments, and stand behind them: when a flush fails after the last of them |
| `LogDamage.WrongDropsBlock` | `deps/leveldb/leveldb-1.20/db/log_reader.cc:230-269` | where a header promises more than its block holds, or its checksum is wrong, the rest of the block is skipped and what was being put together is given up, with a report for each |
| `LogDamage.UselessIsReported` | `deps/leveldb/leveldb-1.20/db/log_reader.cc:131-177` | a fragment without a beginning, or of an unknown type, is passed over with one report; before the latter what was begun is given up |
| `LogDamage.ZeroFilled` | `deps/leveldb/leveldb-1.20/db/log_reader.cc:248-254` | a log followed by any number of zero bytes, as in a file whose space was set aside, reads as the log, without a report |
| `LogTheorems.TornRecordHides` | `deps/leveldb/leveldb-1.20/db/log_reader.cc:216-243` | a log is followed by the torn first fragment of a record, its header whole, and then by any bytes at all, fewer than the fragment lacks: the reader returns the log and nothing of what follows, without a report |
| `LogTheorems.MissingTrailerHides` | `deps/leveldb/leveldb-1.20/db/log_writer.cc:47-56` | a record follows a log whole, but bytes of the trailer before it are missing: if what the reader finds two bytes of length in the middle of its header promises more than there is, it is lost without a report |
| `LogTheorems.LastByteOfTrailer` | `deps/leveldb/leveldb-1.20/db/log_writer.cc:47-56` | that is so for every record shorter than 256 bytes when just the last byte of the trailer is missing |
| `SkipLists.NeverReadsUnset` | `deps/leveldb/leveldb-1.20/db/skiplist.h:262-281` | over any run of single stores, whenever a search by another thread is about to load a link, that link is set |
| `SkipLists.SearchIsRight` | `deps/leveldb/leveldb-1.20/db/skiplist.h:262-281` | such a search returns a node that is not before the key, and no node that was there when it began is skipped |
| `SkipLists.PrivateStore` | `deps/leveldb/leveldb-1.20/db/skiplist.h:362-366` | storing a link of a node that is not yet on a level keeps the invariant: each level sorted, and a sublist of the one below |
| `SkipLists.PublishingStore` | `deps/leveldb/leveldb-1.20/db/skiplist.h:362-369` | the store that links a node in keeps its level sorted and linked |
| `SkipLists.SplicedGood` | `deps/leveldb/leveldb-1.20/db/skiplist.h:362-369` | after that store every level is again a sorted sublist of the one below, and every level only grew |
| `SkipLists.SkipList.FindGreaterOrEqual` | `deps/leveldb/leveldb-1.20/db/skiplist.h:262-281` | the first node not before the key, and on each level the last node before it |
| `SkipLists.SkipList.FindLessThan` | `deps/leveldb/leveldb-1.20/db/skiplist.h:284-302` | the last node before the key |
| `SkipLists.SkipList.FindLast` | `deps/leveldb/leveldb-1.20/db/skiplist.h:305-322` | the last node |
| `SkipLists.SkipList.Raise` | `deps/leveldb/leveldb-1.20/db/skiplist.h:347-360` | a greater height is stored before the node is linked, and the head is its predecessor there |
| `SkipLists.SkipList.LinkLevel` | `deps/leveldb/leveldb-1.20/db/skiplist.h:362-369` | two stores, each of which keeps the invariant, splice the node into one level |
| `SkipLists.SkipList.Insert` | `deps/leveldb/leveldb-1.20/db/skiplist.h:337-370` | for any height, the contents become the old ones with the new key in its place; every state in between is recorded, each one store after the one before, and satisfies the invariant; their number is exact: one for the node, one for the height if it is raised, two for each level |
| `SkipLists.SkipList.Contains` | `deps/leveldb/leveldb-1.20/db/skiplist.h:373-380` | true exactly if an equal key is in the list |
| `SkipLists.Iterator.Next` | `deps/leveldb/leveldb-1.20/db/skiplist.h:208-211` | moves to the following key, or off the end |
| `SkipLists.Iterator.Prev` | `deps/leveldb/leveldb-1.20/db/skiplist.h:214-222` | a search from the top moves to the preceding key, or off the front |
| `SkipLists.Iterator.Seek` | `deps/leveldb/leveldb-1.20/db/skiplist.h:225-227` | moves to the first key not before the target |
| `SkipLists.Iterator.SeekToLast` | `deps/leveldb/leveldb-1.20/db/skiplist.h:235-240` | moves to the last key, or nowhere in an empty list |
| `DbFormat.KeyRoundTrip` | `deps/leveldb/leveldb-1.20/db/dbformat.h:176-186` | an internal key parses back into its user key, sequence number and type |
| `DbFormat.ParsesExactly` | `deps/leveldb/leveldb-1.20/db/dbformat.h:176-186` | a string parses as an internal key if and only if it has eight bytes and the first of the last eight is a type there is |
| `DbFormat.CompareMeans` | `deps/leveldb/leveldb-1.20/db/dbformat.cc:50-66` | comparing two encoded keys orders by user key, then by falling sequence number, then values before deletions |
| `DbFormat.SeekKeyIsFirst` | `deps/leveldb/leveldb-1.20/db/dbformat.cc:121-138` | the lookup key, made with kValueTypeForSeek, comes before exactly the entries of its user key that are not newer than its sequence number |
| `DbFormat.CompareTransitive` | `deps/leveldb/leveldb-1.20/db/dbformat.cc:50-66` | the comparison is a total preorder if the user comparison is one |
| `MemTables.CompareEncoded` | `deps/leveldb/leveldb-1.20/db/memtable.cc:33-39` | comparing length-prefixed encodings orders entries by user key and falling tag |
| `MemTables.MemTable.Add` | `deps/leveldb/leveldb-1.20/db/memtable.cc:82-106` | the memtable holds the old entries and the new one |
| `MemTables.MemTable.Get` | `deps/leveldb/leveldb-1.20/db/memtable.cc:108-143` | the answer is that of the entry with the highest tag among those visible at the sequence number, or missing if there are none, for keys whose lookup key has a 32-bit length |
| `MemTables.AnswerIsNewest` | `deps/leveldb/leveldb-1.20/db/memtable.cc:108-143` | with distinct sequence numbers per key, that is the newest entry not after the sequence number, whatever the order of insertion |
| `Lookups.FirstHit` | `deps/leveldb/leveldb-1.20/db/version_set.cc:346-348` | if layers hold newer entries before older ones for each key, the first layer with an answer has the answer of the newest visible entry of all of them |
| `Lookups.TableGet` | `deps/leveldb/leveldb-1.20/db/version_set.cc:268-281` | the first entry of a table not before the lookup key decides, and gives the newest visible one there |
| `Lookups.OverlappingGet` | `deps/leveldb/leveldb-1.20/db/version_set.cc:357-372` | of files that may overlap, those that span the key in falling order of their numbers, the first that answers has the newest visible entry of all the files |
| `Lookups.FindFile` | `deps/leveldb/leveldb-1.20/db/version_set.cc:86-105` | binary search finds the first file whose largest key is not before the target |
| `Lookups.SortedGet` | `deps/leveldb/leveldb-1.20/db/version_set.cc:373-390` | in a sorted level, even one where two files share a user key, the one file looked into has the newest visible entry of the level |
| `Lookups.VersionGet` | `deps/leveldb/leveldb-1.20/db/version_set.cc:332-429` | level by level until one answers: the newest visible entry of all the files |
| `Lookups.Get` | `deps/leveldb/leveldb-1.20/db/db_impl.cc:1109-1154` | memtable, immutable memtable, then the files: the value is that of the newest entry visible at the sequence number in the union of all of them |
| `WriteBatches.EncodeOpsAppend` | `deps/leveldb/leveldb-1.20/db/write_batch.cc:141-145` | the records of two batches in a row are the records of the joined batch |
| `WriteBatches.BatchRoundTrip` | `deps/leveldb/leveldb-1.20/db/write_batch.cc:42-80` | a batch iterates back to its operations with status OK if and only if every key and value is shorter than 2^32 bytes |
| `WriteBatches.WrongCount` | `deps/leveldb/leveldb-1.20/db/write_batch.cc:75-79` | a batch whose count field is not the number of its operations modulo 2^32 does not iterate with status OK, and one whose count is does |
| `WriteBatches.CutBatch` | `deps/leveldb/leveldb-1.20/db/write_batch.cc:42-80` | a batch cut off at any byte does not iterate with status OK |
| `WriteBatches.WriteBatch.Clear` | `deps/leveldb/leveldb-1.20/db/write_batch.cc:37-40` | the empty batch |
| `WriteBatches.WriteBatch.Put` | `deps/leveldb/leveldb-1.20/db/write_batch.cc:98-103` | a representation of a list of operations becomes that of the list with one more |
| `WriteBatches.WriteBatch.Delete` | `deps/leveldb/leveldb-1.20/db/write_batch.cc:105-109` | the same for a deletion |
| `WriteBatches.WriteBatch.SetSequence` | `deps/leveldb/leveldb-1.20/db/write_batch.cc:94-96` | the sequence number changes and the operations stay |
| `WriteBatches.WriteBatch.Append` | `deps/leveldb/leveldb-1.20/db/write_batch.cc:141-145` | the operations of one batch followed by those of the other, the count the sum modulo 2^32 |
| `WriteBatches.WriteBatch.Iterate` | `deps/leveldb/leveldb-1.20/db/write_batch.cc:42-80` | for any bytes, the handler is given the operations up to the first malformed record, and the status says which error, or that the count is wrong |
| `WriteBatches.WriteBatch.InsertInto` | `deps/leveldb/leveldb-1.20/db/write_batch.cc:128-134` | the entries are added in order, numbered from the batch's sequence number |
| `WriteBatches.NumberedAt` | `deps/leveldb/leveldb-1.20/db/write_batch.cc:112-126` | the i-th operation gets the i-th number, modulo 2^64 |
| `Recovery.RecoverLogFile` | `deps/leveldb/leveldb-1.20/db/db_impl.cc:365-486` | for any bytes, the loop over the reader leaves the tables, the memtable, the maximum sequence and the status of the replay specification; a file that cannot be opened is an error only in paranoid mode. What that comes to is RecoverOpened |
| `RecoveredTables.RecoverOpened` | `deps/leveldb/leveldb-1.20/db/db_impl.cc:395-486` | the recovery of any file, said by the records and reports the reader gets from it: in paranoid mode it fails exactly if there is a report or a record that is not a whole batch, if tables can be written; if it ends well, each table but the last one holds as many records as it took to outgrow the write buffer, a memtable is left exactly if the log is reused and it never did, and every entry is in the one or the other; the maximum sequence is the highest a batch ends with |
| `RecoveredTables.RecoveryIsExact` | `deps/leveldb/leveldb-1.20/db/db_impl.cc:395-486` | that for the specification of the method, on all inputs |
| `RecoveredTables.CrashRecoveryPlaces` | `deps/leveldb/leveldb-1.20/db/db_impl.cc:443-483` | of a log of batches cut at any byte: the entries of the batches that fit are all in memory if and only if the log is reused and no first part of them outgrows the write buffer, and otherwise all in tables |
| `Recovery.ReplayRecord` | `deps/leveldb/leveldb-1.20/db/db_impl.cc:420-450` | one record: too small, malformed, written to a table (which may fail) or kept |
| `Recovery.StepsBatch` | `deps/leveldb/leveldb-1.20/db/db_impl.cc:430-442` | replaying one logged batch adds exactly its entries and moves the maximum to its last number, or ends with the error of the table write |
| `Recovery.ReplaysLog` | `deps/leveldb/leveldb-1.20/db/db_impl.cc:418-450` | from any point of a log that may be cut, whose batches have rising disjoint ranges of numbers with or without gaps, exactly the whole batches that fit are replayed, as long as the table writes succeed |
| `Recovery.FinishKeeps` | `deps/leveldb/leveldb-1.20/db/db_impl.cc:460-483` | reusing the log or writing the last memtable out loses nothing |
| `Recovery.CrashRecovery` | `deps/leveldb/leveldb-1.20/db/db_impl.cc:365-486` | a log of batches with rising disjoint ranges of numbers, gaps allowed, cut at any byte, recovers exactly the entries of the whole batches that fit and their last sequence number, whatever spills happen, whenever the status is OK; and it is OK if the tables can be written |
| `Recovery.RecoveredAscend` | `deps/leveldb/leveldb-1.20/db/db_impl.cc:430-442` | recovered sequence numbers rise strictly, gaps or not, so no two entries share one |
| `Recovery.RecoversFirst` | `deps/leveldb/leveldb-1.20/db/db_impl.cc:365-486` | let anything follow a log of batches and cut the file anywhere: if recovery ends with status OK, the entries of the whole batches that fit come first in what it recovers; not in paranoid mode, or with nothing following, it does if tables can be written |
| `Durability.RunIsLoggable` | `deps/leveldb/leveldb-1.20/db/db_impl.cc:1211-1245` | the log that any run of writers leaves, failed appends included, has the rising disjoint ranges that recovery asks for, if keys and values are shorter than 2^32 bytes and the numbers stay below 2^56 |
| `Durability.SuccessIsClean` | `deps/leveldb/leveldb-1.20/db/log_writer.cc:36-82` | an attempt to log that succeeded is all there exactly if it has the length it should have; and it is if no trailer was due |
| `Durability.CleanFile` | `deps/leveldb/leveldb-1.20/db/log_writer.cc:22-109` | as long as all attempts in it are all there, the file of a run, reused or new, is the log of its batches, and the writer is in step with its length |
| `Durability.OnDiskIsRecovered` | `deps/leveldb/leveldb-1.20/db/db_impl.cc:1223-1231` | take any log file that a run of writers leaves, reused or new, up to the first attempt in it that failed or is short of a trailer, with whatever came behind it, cut anywhere after the records known to be on disk up to there: if recovery ends well it gives the entries of some first batches, whole, and none of those on disk up to there is missing |
| `Durability.SyncedIsRecovered` | `deps/leveldb/leveldb-1.20/db/db_impl.cc:1223-1265` | a sync write that returned OK is in a record on disk; if neither its own attempt nor an earlier one in the same file failed or is short of a trailer, each of its operations is among the entries recovered after any such cut, under the number it was given, whatever was written behind it |
| `LostWrites.WritesAlone` | `deps/leveldb/leveldb-1.20/db/db_impl.cc:1194-1265` | whatever an append may leave in the file, a run exists in which a write alone in the queue leaves that, and comes to its end |
| `LostWrites.LostBehindTornRecord` | `deps/leveldb/leveldb-1.20/db/db_impl.cc:1223-1241` | a run exists in which a write fails when only the header of its record is in the log, the sync write after it returns OK, and recovery of the whole file finds nothing and reports nothing |
| `LostWrites.LostBehindMissingTrailer` | `deps/leveldb/leveldb-1.20/db/log_writer.cc:47-56` | a run exists in which both writes return OK, the second synced, one byte of trailer between their records did not come to be written, and recovery of the whole file finds the first write and not the second, and reports nothing |
| `Compaction.LevelCursors.IsBaseLevelForKey` | `deps/leveldb/leveldb-1.20/db/version_set.cc:1484-1503` | asked with rising keys, the cursors that never go back answer whether the key lies beside every table from two levels below the compacted one on, also where two tables of a level share a user key |
| `CompactedVersions.NothingBelow` | `deps/leveldb/leveldb-1.20/db/version_set.cc:1484-1503` | in a version with its tables: if the answer is yes, no entry of any table on the levels from level + 2 on has that user key; if it is no, some table there reaches over it |
| `CompactedVersions.BaseIsBelow` | `deps/leveldb/leveldb-1.20/db/version_set.cc:1484-1503` | the same for the condition that the drop rules use |
| `Compaction.Examine` | `deps/leveldb/leveldb-1.20/db/db_impl.cc:938-972` | one input entry is dropped exactly by the two rules, stated over the input list and not over the loop's variables |
| `Compaction.DoCompactionWork` | `deps/leveldb/leveldb-1.20/db/db_impl.cc:887-1046` | whatever fails and wherever the outputs are cut, they hold the entries that are not dropped of some first part of the input, in order, and no output goes on once it is big enough; if the status is OK, of all of the input, each output knows its smallest and largest key, none has an entry before which it had to stop, and each ends because it is big enough, or before such an entry of the input, or with the input; without a failure or a shutdown the status is OK |
| `Compaction.CompactionState.Emit` | `deps/leveldb/leveldb-1.20/db/db_impl.cc:983-1005` | an entry goes to the end of the output that is being built, or into a new one with it as smallest key, its key becomes the largest, and the output is closed exactly when it is big enough; what a file that does not open or finish leaves is stated too |
| `CompactionMeaning.DroppedLatest` | `deps/leveldb/leveldb-1.20/db/db_impl.cc:955-969` | an entry that is the newest visible to some snapshot not below the smallest is dropped only if it is a deletion at base level |
| `CompactionMeaning.DroppedExactly` | `deps/leveldb/leveldb-1.20/db/db_impl.cc:938-969` | the loop, which looks back one entry only, drops an entry exactly if a newer one for its user key anywhere in the input is old enough for every reader, or it is a deletion that is, with nothing for its key on deeper levels |
| `CompactionMeaning.KeptExactly` | `deps/leveldb/leveldb-1.20/db/db_impl.cc:938-1008` | the output holds exactly the entries for which neither is so |
| `CompactionMeaning.OneOldEach` | `deps/leveldb/leveldb-1.20/db/db_impl.cc:938-1008` | so of the entries for one user key that every reader may see at most one is kept |
| `CompactionMeaning.BadKeysKept` | `deps/leveldb/leveldb-1.20/db/db_impl.cc:938-946` | entries whose keys do not parse are always kept |
| `CompactionMeaning.NothingOlder` | `deps/leveldb/leveldb-1.20/db/db_impl.cc:958-969` | beside an entry that every reader may see, or a newer one for its key, only newer entries for its key are kept of the input |
| `CompactionMeaning.CompactionKeepsMeaning` | `deps/leveldb/leveldb-1.20/db/db_impl.cc:938-1008` | for every sorted input, every key and every sequence number from the smallest snapshot on, reading the database gives the same answer before and after, if no value comes back |
| `CompactionMeaning.CompactionIsExact` | `deps/leveldb/leveldb-1.20/db/db_impl.cc:938-969` | every answer from the smallest snapshot on is unchanged if and only if the input has no deletion at base level that is the newest entry for its key the smallest snapshot sees, and behind which what stays elsewhere shows it a value |
| `CompactionMeaning.ValueComesBack` | `deps/leveldb/leveldb-1.20/db/db_impl.cc:938-969` | if there is such a deletion, the answer at the smallest snapshot changes from none to that value |
| `CompactionMeaning.SafeCompaction` | `deps/leveldb/leveldb-1.20/db/db_impl.cc:938-969` | all answers from the smallest snapshot on are unchanged, whichever that is, if and only if no deletion of the input at base level has a value as the next older entry for its key among what stays elsewhere |
| `CompactionMeaning.NewerRestIsSafe` | `deps/leveldb/leveldb-1.20/db/db_impl.cc:938-969` | that holds when what stays elsewhere for the keys of the input at base level is newer |
| `CompactionMeaning.LastSequenceDropsAll` | `deps/leveldb/leveldb-1.20/db/db_impl.cc:900-969` | the smallest snapshot must be below kMaxSequenceNumber: at that number everything is dropped |
| `CompactionMeaning.CutBetween` | `deps/leveldb/leveldb-1.20/db/db_impl.cc:997-1004` | an output ends as soon as it is big enough, even between a deletion and an older value of one user key, so that both are outputs of one level |
| `CompactionMeaning.SplitByCompaction` | `deps/leveldb/leveldb-1.20/db/db_impl.cc:887-1046` | the compaction loop itself, with a snapshot between a deletion and the value it deletes and outputs of one entry, keeps both and puts them into two outputs of one level |
| `CompactionMeaning.DeletedValueComesBack` | `deps/leveldb/leveldb-1.20/db/db_impl.cc:948-969` | compacting the first of those two tables alone, when no deeper level has the key, drops the deletion, and the value is read again: the answer changes from none to that value |
| `CompactionInputs.GetOverlappingInputs` | `deps/leveldb/leveldb-1.20/db/version_set.cc:531-572` | on a sorted level exactly the tables that overlap the range; on level 0, for any order and overlaps of the tables, exactly those that overlap the least range around the given one that cuts no table, so that no table left out overlaps one taken; the search, begun anew whenever the range grows, ends |
| `CompactionInputs.GetRange` | `deps/leveldb/leveldb-1.20/db/version_set.cc:1224-1244` | the smallest and the largest key of the tables |
| `CompactionInputs.SetupOtherInputs` | `deps/leveldb/leveldb-1.20/db/version_set.cc:1345-1389` | from the next level exactly the tables that overlap the range of the upper ones are taken; upper tables are added exactly if there are more in the whole range, the sizes stay below the limit, and no other table of the next level comes in; then the lower tables stay the same; on level 0, if no table left out overlapped those given, none overlaps those taken |
| `CompactionInputs.FirstToCompact` | `deps/leveldb/leveldb-1.20/db/version_set.cc:1304-1316` | the first table that ends after the compaction pointer, or the first of all if none does |
| `CompactionInputs.PickCompaction` | `deps/leveldb/leveldb-1.20/db/version_set.cc:1291-1343` | the table a compaction begins with is among those taken, on level 0 with all that overlap any of them, and from the next level exactly those that overlap their range |
| `CompactionInputs.CompactRange` | `deps/leveldb/leveldb-1.20/db/version_set.cc:1413-1446` | nothing if and only if no table of the level overlaps the range; otherwise on level 0 all that do and all that overlap any of those, and on the other levels at least the first ones, up to the size allowed |
| `CompactionInputs.TakesAllExactly` | `deps/leveldb/leveldb-1.20/db/version_set.cc:1345-1389` | the tables chosen have all entries of their levels for the user keys that are compacted if and only if none of them, on a sorted level, ends with the user key the next one left behind begins with, or begins with the one the last one left behind ends with |
| `CompactionInputs.ChosenIsClear` | `deps/leveldb/leveldb-1.20/db/version_set.cc:1345-1358` | every table of the next level that is left behind lies before all that is compacted, or after all of it |
| `CompactedVersions.VersionKeepsAnswers` | `deps/leveldb/leveldb-1.20/db/db_impl.cc:887-1046` | in a version with newer entries for a key never below older ones, a compaction that takes all such entries leaves every answer from its smallest snapshot on as it was: no deleted value comes back, whatever lies on the other levels and in the memtables |
| `CompactedVersions.InstalledGood` | `deps/leveldb/leveldb-1.20/db/version_set.cc:711-757` | with the outputs in place of the tables merged, the levels are sorted and disjoint again |
| `CompactedVersions.InstalledLayered` | `deps/leveldb/leveldb-1.20/db/version_set.cc:346-348` | and newer entries for a key are still never below older ones, which is what lookups rely on |
| `CompactedVersions.CompactVersion` | `deps/leveldb/leveldb-1.20/db/db_impl.cc:887-1046` | the compaction of a version, from the cursors on its levels to the new version: the levels are in order whatever happens; answers from the smallest snapshot on stay exactly if no value comes back; they do, and the layering stays, if all entries for the keys were taken; if anything fails the version stays |
| `CompactionInputs.PickAndCompact` | `deps/leveldb/leveldb-1.20/db/version_set.cc:1291-1411` | choosing and compacting together: where no user key lies across the edge of a table taken, the new version is in order and layered, and gives the same answers from the smallest snapshot on |
| `Snapshots.SnapshotList.New` | `deps/leveldb/leveldb-1.20/db/snapshot.h:42-51` | relinking the ring appends a snapshot at the newest end |
| `Snapshots.SnapshotList.Delete` | `deps/leveldb/leveldb-1.20/db/snapshot.h:53-58` | relinking the ring takes out that snapshot and no other |
| `Snapshots.SnapshotList.Oldest` | `deps/leveldb/leveldb-1.20/db/snapshot.h:39` | the first in the order of creation |
| `Snapshots.SnapshotList.Newest` | `deps/leveldb/leveldb-1.20/db/snapshot.h:40` | the last in the order of creation |
| `SnapshotRuns.ChooseSmallest` | `deps/leveldb/leveldb-1.20/db/db_impl.cc:900-904` | the oldest live snapshot, or the last sequence number if there is none |
| `SnapshotRuns.SmallestIsGreatest` | `deps/leveldb/leveldb-1.20/db/db_impl.cc:900-904` | of all numbers up to the last it is the greatest that no live snapshot is below |
| `SnapshotRuns.SnapshotsNotBelowSmallest` | `deps/leveldb/leveldb-1.20/db/db_impl.cc:1175-1183` | over any run of writes, snapshots taken and released, and compactions, every live snapshot is at or above the smallest the running compaction chose |
| `SnapshotRuns.StepKeepsAnswers` | `deps/leveldb/leveldb-1.20/db/db_impl.cc:887-1046` | no event changes an answer at a sequence number that is allocated and not below the running compaction's smallest, unless that compaction finishes and brings a value back |
| `SnapshotRuns.FinishIsExact` | `deps/leveldb/leveldb-1.20/db/db_impl.cc:887-1046` | a finishing compaction leaves every answer from its smallest snapshot on as it was if and only if it brings no value back |
| `SnapshotRuns.RunIsExact` | `deps/leveldb/leveldb-1.20/db/db_impl.cc:887-1046` | over any run, a compaction that starts in one step and finishes in a later one leaves every such answer as it was if and only if it was safe when it started, whatever was written, taken and released meanwhile |
| `SnapshotRuns.HeldSnapshotChanges` | `deps/leveldb/leveldb-1.20/db/db_impl.cc:900-904` | if it was not, there is a key for which the answer at the snapshot it went by changes from none to a value |
| `SnapshotRuns.SnapshotsNeverChange` | `deps/leveldb/leveldb-1.20/db/db_impl.cc:1175-1183` | over any run whose compactions are safe when they start, a snapshot that stays held answers every key the same from first to last |
| `SnapshotRuns.CurrentUnchanged` | `deps/leveldb/leveldb-1.20/db/db_impl.cc:887-1046` | installing a compaction that brings no value back changes no answer at the current sequence number |
| `StoreRuns.WriteIsRead` | `deps/leveldb/leveldb-1.20/db/db_impl.cc:1233-1245` | after a write every key has the value its batch gave it last, none if that was a deletion, and the one it had if the batch is not about it |
| `StoreRuns.StoreIsAMap` | `deps/leveldb/leveldb-1.20/db/db_impl.cc:1109-1154` | over any run of writes, snapshots and compactions that are safe when they start, what is read of a key is what all writes so far, applied in order, make of it |
| `StoreRuns.SnapshotIsThePast` | `deps/leveldb/leveldb-1.20/db/db_impl.cc:1175-1183` | and what is read at a snapshot, as long as it is held, is what the writes before it had made of it |
| `GroupCommit.GroupRules` | `deps/leveldb/leveldb-1.20/db/db_impl.cc:1267-1314` | a group led by a write that is not sync holds no sync write, what it adds to the leader's batch keeps within max_size, and it ends only at the end of the queue, before a sync write, or before a batch that would exceed max_size |
| `GroupCommit.GroupCounts` | `deps/leveldb/leveldb-1.20/db/db_impl.cc:1267-1314` | a leader with fewer than 2^31 operations never forms a group with 2^31 or more: groups grow to a megabyte only, and each operation takes more than a byte |
| `GroupCommit.BuildBatchGroup` | `deps/leveldb/leveldb-1.20/db/db_impl.cc:1267-1314` | the batch returned holds the operations of the first n writers in order; to a first batch of at most 131072 bytes the others add at most 131072, and a group with a larger one has at most 1048576 unless nothing is added; it ends only with the queue, before a sync write the leader does not cover, or before a batch that would pass that number; the caller's own batch is returned untouched if it is the only one |
| `GroupCommitRuns.StepIsSound` | `deps/leveldb/leveldb-1.20/db/db_impl.cc:1194-1265` | each atomic step of Write, by any thread, keeps the invariant of queue, group in hand, history, log, files and memtable; an append may leave whatever AddRecord may, and sync and insert may fail |
| `GroupCommitRuns.RunIsSound` | `deps/leveldb/leveldb-1.20/db/db_impl.cc:1194-1265` | every state of every interleaving satisfies it |
| `GroupCommitRuns.OneLeader` | `deps/leveldb/leveldb-1.20/db/db_impl.cc:1201-1207` | at most one thread is between waiting and returning, and it is at the front of the queue |
| `GroupCommitRuns.Fifo` | `deps/leveldb/leveldb-1.20/db/db_impl.cc:1194-1265` | writers leave in the order in which they entered; those that left have returned or have been told their status |
| `GroupCommitRuns.ReturnedOnce` | `deps/leveldb/leveldb-1.20/db/db_impl.cc:1248-1260` | a writer that returned is in exactly one group, and returned that group's status |
| `GroupCommitRuns.GroupsAscend` | `deps/leveldb/leveldb-1.20/db/db_impl.cc:1211-1245` | groups in the log and in the history follow each other in queue order with disjoint rising sequence ranges; a log record is exactly its writers' operations |
| `GroupCommitRuns.LoggedBeforeApplied` | `deps/leveldb/leveldb-1.20/db/db_impl.cc:1223-1233` | what is in the memtable was logged before, with success, and the record is the whole batches of the group |
| `GroupCommitRuns.SyncedIsOnDisk` | `deps/leveldb/leveldb-1.20/db/db_impl.cc:1224-1231` | a sync write that returned OK is in a record on disk whose append succeeded |
| `GroupCommitRuns.TmpEmptyBetweenGroups` | `deps/leveldb/leveldb-1.20/db/db_impl.cc:1243` | when no group is in hand the temporary batch is empty |
| `GroupCommitRuns.NoPartialBatch` | `deps/leveldb/leveldb-1.20/db/db_impl.cc:1211-1245` | over any run whose keys and values are shorter than 2^32 bytes, what a reader at the last sequence number of some moment sees, then or ever after, is the entries of the groups that had succeeded by that moment, whole |
| `GroupCommitRuns.YieldsItsOps` | `deps/leveldb/leveldb-1.20/db/db_impl.cc:1232-1234` | iterating over a group's batch hands out exactly its operations, with success, if and only if all their keys and values are shorter than 2^32 bytes |
| `GroupCommitRuns.SeenWhole` | `deps/leveldb/leveldb-1.20/db/db_impl.cc:1232-1245` | once a group is done, a reader at its last number sees all of it, or nothing of it if it failed, if and only if its batch hands out nothing or all its keys and values are shorter than 2^32 bytes |
| `GroupCommitRuns.WholeExactly` | `deps/leveldb/leveldb-1.20/db/db_impl.cc:1211-1245` | in every state of a run: readers at the last number of each group so far see exactly the groups that succeeded, whole, if and only if that holds of every group |
| `GroupCommitRuns.PartOfABatch` | `deps/leveldb/leveldb-1.20/db/db_impl.cc:1232-1245` | a run in which it does not: a write fails while it is inserted, the last sequence number moves over all of it, and a reader sees part of the batch |
| `GroupCommitRuns.SomeoneCanStep` | `deps/leveldb/leveldb-1.20/db/db_impl.cc:1201-1263` | no writer is stuck: one that was told can return, and while the queue is not empty the writer at its front can take a step |
| `GroupCommitRuns.NothingAfterFailedSync` | `deps/leveldb/leveldb-1.20/db/db_impl.cc:1225-1241` | once a sync failed nothing is added to the log or the memtable any more |
| `DbIter.DBIter.FindNextUserEntry` | `deps/leveldb/leveldb-1.20/db/db_iter.cc:173-203` | forward, the cursor stops at the first entry from there on that is the newest visible of its key and a value |
| `DbIter.DBIter.Next` | `deps/leveldb/leveldb-1.20/db/db_iter.cc:146-171` | from either direction, the cursor moves to the next shown entry after the current one, or becomes invalid |
| `DbIter.DBIter.Prev` | `deps/leveldb/leveldb-1.20/db/db_iter.cc:205-230` | from either direction, the cursor moves to the last shown entry before the current one, or becomes invalid |
| `DbIter.DBIter.FindPrevUserEntry` | `deps/leveldb/leveldb-1.20/db/db_iter.cc:232-272` | backward, the saved entry is the last shown one, deletions and older versions passed over |
| `DbIter.DBIter.Seek` | `deps/leveldb/leveldb-1.20/db/db_iter.cc:274-286` | the cursor is at the first shown entry whose user key is not before the target |
| `DbIter.DBIter.SeekToFirst` | `deps/leveldb/leveldb-1.20/db/db_iter.cc:288-297` | the first shown entry |
| `DbIter.DBIter.SeekToLast` | `deps/leveldb/leveldb-1.20/db/db_iter.cc:299-304` | the last shown entry |
| `DbIter.DBIter.GetKey` | `deps/leveldb/leveldb-1.20/db/db_iter.cc:66-69` | in either direction the key is that of the current entry |
| `DbIter.DBIter.GetValue` | `deps/leveldb/leveldb-1.20/db/db_iter.cc:70-73` | in either direction the value is that of the current entry, saved or not |
| `DbIter.ViewAscends` | `deps/leveldb/leveldb-1.20/db/db_iter.cc:146-304` | the shown entries have strictly rising user keys |
| `DbIter.MovesAlongView` | `deps/leveldb/leveldb-1.20/db/db_iter.cc:146-230` | a move is one place up or down the list of shown entries |
| `DbIter.EndsOfView` | `deps/leveldb/leveldb-1.20/db/db_iter.cc:288-304` | seeking to an end is the first or last of that list |
| `DbIter.ViewIsTheMap` | `deps/leveldb/leveldb-1.20/db/db_iter.cc:146-304` | the list of shown entries is exactly the map the database is at that sequence number: a key is shown with a value if and only if reading gives that value |
| `VersionEdits.BodyRoundTrip` | `deps/leveldb/leveldb-1.20/db/version_edit.cc:109-207` | each kind of field decodes from its encoding, with the rest left |
| `VersionEdits.AllRoundTrip` | `deps/leveldb/leveldb-1.20/db/version_edit.cc:109-207` | a list of fields decodes with status OK |
| `VersionEdits.EditRoundTrip` | `deps/leveldb/leveldb-1.20/db/version_edit.cc:41-210` | decoding an encoded edit gives back every flag, number, deleted file and new file; the compact pointers follow those already there, so the edit is equal if and only if there were none |
| `VersionEdits.VersionEdit.EncodeTo` | `deps/leveldb/leveldb-1.20/db/version_edit.cc:41-86` | the output is the fields of the edit, deleted files in ascending order |
| `VersionEdits.VersionEdit.DecodeFrom` | `deps/leveldb/leveldb-1.20/db/version_edit.cc:109-210` | for any bytes, the fields before the first error are applied and the status names the error |
| `VersionEdits.DecodedFits` | `deps/leveldb/leveldb-1.20/db/version_edit.cc:88-108` | whatever the bytes, the fields read have levels that there are, numbers of 64 bits and strings with 32-bit lengths |
| `VersionEdits.VersionEdit.Clear` | `deps/leveldb/leveldb-1.20/db/version_edit.cc:26-39` | everything but the compact pointers is cleared |
| `VersionEdits.VersionEdit.SetCompactPointer` | `deps/leveldb/leveldb-1.20/db/version_edit.h:55-57` | appends one pointer |
| `VersionEdits.VersionEdit.AddFile` | `deps/leveldb/leveldb-1.20/db/version_edit.h:62-72` | appends one file |
| `VersionEdits.VersionEdit.DeleteFile` | `deps/leveldb/leveldb-1.20/db/version_edit.h:75-77` | adds one pair to the set |
| `Coding.PrefixedRoundTrip` | `deps/leveldb/leveldb-1.20/util/coding.cc:98-101` | a length-prefixed string shorter than 2^32 reads back, with the rest left |
| `Bytes.RoundTrip64` | `deps/leveldb/leveldb-1.20/util/coding.cc:81-170` | a 64-bit number reads back from its varint |
| `ScanDelivery.Iterator.CreateScanner` | `src/iterator.cc:182-212` | true exactly when a scanner was made by this call; a failed open leaves none |
| `ScanDelivery.Iterator.FillBatch` | `src/iterator.cc:118-143` | empty batches are passed over, and no row is lost; an empty result means the end of the table |
| `ScanDelivery.Iterator.IteratorNext` | `src/iterator.cc:89-179` | keys and values of all rows returned but the last are together shorter than the high-water mark, and all of them reach it unless the batch is used up; they are readable rows of the batch in hand, in order; without errors they are the next ones of the table, at least one with a positive mark, and it fails exactly when none are left or the rows fetched have reached the limit |
| `ScanDelivery.NextWorker.Execute` | `src/iterator_async.cc:27-32` | the worker keeps the rows and whether there were any; an end of data is not an error |
| `ScanDelivery.NextWorker.HandleOKCallback` | `src/iterator_async.cc:34-85` | keys and values are laid out backwards by index |
| `ScanDelivery.PoppedLayout` | `iterator.js:38-40` | popping that array, key then value, gives the rows in order |
| `ScanDelivery.JsIterator.Next` | `iterator.js:33-61` | each call hands out the first pair still to come, or the end if there is none; the recursion after a refill ends |
| `ScanDelivery.ReadAll` | `iterator.js:33-61` | calling next until the end gives every row of the table once, in order, for every split into batches, without a limit or with fewer rows than that |
| `ScanDelivery.LimitCutsShort` | `src/iterator.cc:104-110` | with a limit that the rows fetched have reached, rows of the batch in hand that were not handed out yet never are, although fewer were than the limit |
| `Formats.VarintIs` | `deps/leveldb/leveldb-1.20/util/coding.cc:47-95` | the variable-length form of a number is the one string of bytes, of which all but the last have the high bit set, whose low seven bits are its base-128 digits, the lowest first, and whose last digit is not zero unless it is the only one |
| `Formats.FixedBytes` | `deps/leveldb/leveldb-1.20/util/coding.cc:9-45` | fixed-length numbers have their lowest byte first |
| `Formats.InternalKeyBytes` | `deps/leveldb/leveldb-1.20/db/dbformat.cc:12-21` | after the user key comes 0 for a deletion or 1 for a value, then the sequence number in seven bytes |
| `Formats.BatchBytes` | `deps/leveldb/leveldb-1.20/db/write_batch.cc:1-14` | sequence number in eight bytes, count in four, then 1, key and value for a put, and 0 and key for a deletion, each string after its length |
| `Formats.FieldBytes` | `deps/leveldb/leveldb-1.20/db/version_edit.cc:14-86` | the tag of each field of a version edit, and the order of what follows it |
| `Formats.EditBytes` | `deps/leveldb/leveldb-1.20/db/version_edit.cc:41-86` | the order of the fields in an encoded edit: comparator, log number, previous log number, next file number, last sequence number, compaction pointers, deleted files, new files |
| `Formats.HeaderBytes` | `deps/leveldb/leveldb-1.20/db/log_format.h:14-32` | checksum, two bytes of length, one of type: 1 for a full fragment, 2, 3 and 4 for a first, middle and last one |
| `Formats.FragmentFits` | `deps/leveldb/leveldb-1.20/db/log_writer.cc:36-82` | a fragment fills its 32768-byte block or ends its record, and where fewer than seven bytes of a block are left they are zero |
| `Formats.LiteralLayout` | `deps/snappy/snappy-1.1.4/snappy.cc:212-255` | up to 60 bytes of literal follow one tag byte; a longer one has its length less one in the fewest bytes that hold it |
| `Formats.CopyLayout` | `deps/snappy/snappy-1.1.4/snappy.cc:257-277` | a copy of 4 to 11 bytes from nearer than 2048 takes two bytes, any other up to 64 bytes three |

## Left out

- The Kudu client, V8, Nan and libuv, the tracer, the Avro headers and the TypeScript sources: foreign or generated
  code. The Kudu scanner is a finite sequence of batches that may fail to open, to fetch or to convert a row.
- How many rows a scan with a limit gives when the table has as many or more (the limit is compared with whole-batch
  counts), `seek`, and whether `end` and close complete.
- ScanDelivery.ReadAll: asks for no limit, or fewer rows than it, a positive high-water mark and no scanner error, as it
  would be false without them; the error paths are in the contracts of the methods it calls.
- ScanDelivery.JsIterator.Next: the callbacks are called in place; the order of callbacks of overlapping calls is not
  modelled.
- The writers are template arguments of the decompressor; here a datatype, `AnyWriter`, dispatches on the four
  classes.
- Bits are arithmetic (shifts as division, masks as remainder) except in the match search, where words are bit
  vectors.
- SnappyApi.RawUncompressToIOVec: buffers are disjoint, and there is at least one.
- SnappyApi.UncompressToSink: the path that writes block by block; a sink that offers a flat buffer is
  `RawUncompress`.
- The byte count of `UncompressAsMuchAsPossible` after a failure, compression ratio, and the sinks other than a flat
  buffer and flushed blocks.
- Stats, read sampling, info logs, file names, file numbers, and `FindShortestSeparator` and the filter policy.
- CRC-32C is uninterpreted; unmasking undoes masking. Logs are whole, cut short, or damaged by writes that failed; of
  other damage `LogDamage` says what the reader makes at that place, not what it costs of a whole log.
- LogIO.Reader.ReadRecord: a reader that met a record of type 5 before any record at or after a positive initial offset
  is not called again.
- Recovery.RecoverLogFile: reading the log file, once it is open, never fails. A memtable is the list of entries added
  to it; when it spills, and how writing it to a table ends, are arbitrary functions of it. That the log's size
  can be found and that it opens for appending are one option.
- Durability.SyncedIsRecovered: what becomes of records behind an attempt that failed or is short of a trailer is left
  to the checksums, but for the cases in `LostWrites` and `LogTheorems`; it is one direction.
- MemTables.MemTable.Get: a key whose lookup key reaches 2^32 bytes is outside the contract, as its 32-bit length then
  wraps (dbformat.cc:121-138) and the comparator asserts that it has eight bytes (dbformat.h:98-99); so are sequence
  numbers above `kMaxSequenceNumber`, which packing cannot hold.
- Lookups.Get: that newer layers hold newer entries is a condition; tables are sorted lists of keys that parse, read
  without error.
- GroupCommitRuns.RunIsSound: sequence numbers are unbounded integers; the original would take 2^56 writes to leave
  its range. `MakeRoomForWrite` is waiting, switching logs and a status; when it does which is left to the run.
- GroupCommitRuns.Fifo: that every writer finally returns needs a fair scheduler and wake-ups; what is stated is that
  somebody can always go on (`SomeoneCanStep`).
- GroupCommitRuns.StepIsSound: batches come with fewer than 2^31 operations, as their count is read as a signed number
  and `SetLastSequence` asserts that the number does not fall (version_set.h:212-213).
- The arena, reference counts, and memory ordering: loads and stores of links and of `max_height_` are atomic steps in
  one order.
- SkipLists.SearchIsRight: a search that never ends is not excluded when inserts never cease. The other iterator moves
  are proved without concurrent inserts, and random heights are a parameter.
- Compaction.DoCompactionWork: the input is a sorted sequence for the merging iterator. The memtable compaction the
  loop makes way for only moves entries to a table, so it is no event of its own. Before which keys an output has to
  stop, which goes by the tables two levels down, is an arbitrary function of the key.
- CompactionInputs.PickAndCompact: what the merging iterator delivers for the tables is a parameter. Scores, compaction
  pointers after the choice, file sizes, grandparents and trivial moves are not modelled, nor is the level of flushed
  tables.
- CompactedVersions.InstalledGood: `VersionSet::Builder` is a function that merges two sorted lists; reference counts
  and the manifest are left out.
- SnapshotRuns.SnapshotsNeverChange: that compactions are safe when they start is a condition. The choice of tables does
  not always see to it (`DeletedValueComesBack`); when it does is `TakesAllExactly`.
- DbIter.DBIter.Next: the inner iterator is a cursor over a sorted sequence of internal keys; its own errors are not
  modelled.
- VersionEdits.EditRoundTrip: names and keys shorter than 2^32 bytes, numbers below 2^64 and levels below 7, as the
  fields' types and the decoder demand.
- User comparators are arbitrary total preorders; file formats of tables and blocks are not modelled.
