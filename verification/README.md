# A verified model of memfaultd's data paths

memfaultd collects diagnostic data on Linux devices, stages it as "MAR entries" on disk and sends it on
as ZIP archives. This project models the parts of the daemon in which bytes, counts and protocols have to
come out exactly right, and proves that they do. Five groups of source files are covered:

- **ZIP streaming and batching** (`Bytes`, `Crc32`, `ZipFormat`, `ZipEncoder`, `ZipReader`, `MarBatching`).
  The encoder is a two-level state machine behind `read`; it is proved against the one-shot archive, and
  the archive against an independent reader that follows PKWARE APPNOTE.
- **Core dumps** (`Alignment`, `ElfFormat`, `CoreLayout`, `CoreWriter`, `CoreReader`, `CoreRoundTrip`,
  `ElfNotes`, `FileNotes`). A single-pass writer, a forward-only reader, and parsers that cope with
  truncated notes.
- **The staging cleaner** (`DiskSizes`, `StableSort`, `MarCleaner`): quotas over a two-dimensional
  partial order, with age expiry.
- **The log pipeline** (`LogFiles`, `LogRecovery`, `LogChain`, `LogCollector`): rotation, crash recovery,
  headroom and rate limiting.
- **Clocks and protocols** (`CrashFreeIntervals`, `Decimals`, `PersistentRateLimiter`, `MarExport`).

How the pieces are shaped: code that works by changing state is a class whose methods are proved equal to
specification functions on its abstract value (for the encoder: the rest of the archive still to be
delivered); whole-run results are lemmas about those functions, by induction over the steps of a run. What
the environment decides (short reads, failing opens, reads, writes and removals, free space, clock readings,
the token bucket, what a crash leaves on disk) is a nondeterministic choice or part of the step, so every
result holds for all of it.

Verify everything with `dafny verify dfyconfig.toml`.

## What the model shows about the code

Most promises hold as documented. These are the places where the code needs a condition, each proved
with its exact extent:

- The announced stream length is right exactly when the file sizes still add up (`ZipFormat.ArchiveLength`).
- `align_up` rounds correctly exactly for powers of two (`Alignment.AlignUpNeedsPowerOf2`).
- A core written without segments is refused by the daemon's own reader (`CoreRoundTrip.HeaderAccepted`).
- A last memory segment that ends early, without an error, is not filled and cannot be read back
  (`CoreRoundTrip.SegmentReadBack`).
- The core writer's padding subtraction underflows exactly when the first padded offset lies before the end of
  the table, or a buffer is longer than announced and reaches past the next offset (`CoreLayout.Cramped`,
  `CoreLayout.OnlyTheTableMatters`). A table offset at which the input's own program headers could be read is never
  too small (`CoreRoundTrip.ReadableNeverCramped`).
- A count in a mapped-file note ends the program exactly when memory for so many entries cannot be reserved,
  however short the note is (`FileNotes.AbortsExactly`).
- The chain of log UUIDs breaks at clean closes, as intended, and at one kind of crash inside a rotation
  (`LogChain.BreaksChain`, `LogChain.ChainOverRuns`).
- The headroom check declares a case unreachable that is reached exactly when a record finds the minimum
  available, to the byte and inode, while no shortage is on (`LogCollector.PanicsExactly`).
- Errors lose records without a trace, and the rate limiter's pending count with them when it is the report that
  cannot be written; nothing else does (`LogCollector.NothingVanishes`).
- The crash-free tracker reads the clock separately for its two counts, at the start and in every update, so
  crash-free intervals can outnumber operational ones; when is decided by the readings and the crash times
  (`CrashFreeIntervals.OutnumberedExactly`, with the witnesses `CrashFreeIntervals.OutnumberedOnce`).
- The persistent rate limiter forgets fractions of seconds. It departs from the exact sliding window exactly when
  the instant `duration` ago falls in the second of the `count`-th last allowed call, before it
  (`PersistentRateLimiter.DecidesExactly`, with the witness `PersistentRateLimiter.FractionForgotten`).
- The documentation of the export handler asks clients to send back the ETag they received; the handler
  compares with the bare hash, so that is always refused (`MarExport.QuotedTagRefused`). Stripped of its quotes,
  as the bundled client does, it is accepted exactly while the archive served is still the current export
  (`MarExport.DeleteOnlyWhatWasServed`).
- A DELETE without If-Match can remove an export that no client was sent: exactly one that a refused GET prepared
  and nobody was sent before or since (`MarExport.UnservedExactly`, with the witness `MarExport.UnservedRemoved`).

## Conditions the results carry

- ZIP: the encoder results hold for all inputs, with the 32- and 16-bit casts modelled as truncation.
  The round trip needs what the format can hold: less than 2^32 bytes, at most 65,535 files, names within
  16 bits, recorded sizes that are the file sizes, and an entry list fresh from `ZipEntryInfo::new`.
- Core writer: an input header that passed verification, and offsets that do not overflow 64 bits. Alignments may
  be anything; table offset and buffer sizes decide between writing the core and an underflow, as above. An underflow
  ends the model's run, as it does with overflow checks on; without them the difference wraps around.
- The target is 64-bit, little-endian x86-64; `usize` is taken as 64 bits wide.
- Sizes, counters and instants that the code keeps in 64-bit integers are unbounded here except where a
  field width is written out.

## Model

| member | source | states |
|---|---|---|
| Crc32.UpdateAppend | meta-memfault/recipes-memfault/memfaultd/files/memfaultd/src/util/zip.rs:402-408 | Feeding the checksum register chunk by chunk, in whatever chunks the file is read, gives the register of the concatenation |
| Crc32.ChecksumOfA | meta-memfault/recipes-memfault/memfaultd/files/memfaultd/src/util/zip.rs:402-408 | The checksum of the byte 61 is E8B7BE43, that of CRC-32 (APPNOTE section 4.4.7) |
| ZipEncoder.LocalFileReader.ReadData | meta-memfault/recipes-memfault/memfaultd/files/memfaultd/src/util/zip.rs:358-363 | A checksumming read hands over file bytes unchanged, keeps register and 32-bit amount equal to those of the bytes read so far, and loses nothing on an error |
| ZipEncoder.LocalFileReader.Read | meta-memfault/recipes-memfault/memfaultd/files/memfaultd/src/util/zip.rs:383-416 | Each read delivers the next bytes of header, contents and data descriptor; zero bytes into a non-empty buffer only when the file is finished; a failed read consumes nothing |
| ZipEncoder.Encoder.constructor | meta-memfault/recipes-memfault/memfaultd/files/memfaultd/src/util/zip.rs:62-70 | A new encoder has the whole archive still to deliver |
| ZipEncoder.Encoder.Begin | meta-memfault/recipes-memfault/memfaultd/files/memfaultd/src/util/zip.rs:121-128 | Leaving the initial state delivers nothing and, when the first file cannot be opened, changes nothing, so the next read tries again |
| ZipEncoder.Encoder.AdvanceLocal | meta-memfault/recipes-memfault/memfaultd/files/memfaultd/src/util/zip.rs:143-157 | Patching the finished file's checksum and the next file's offset keeps the table equal to the true one as far as it has got, also when the next file cannot be opened and the step is retried |
| ZipEncoder.Encoder.Read | meta-memfault/recipes-memfault/memfaultd/files/memfaultd/src/util/zip.rs:117-176 | Whatever state it is in, a read delivers exactly the next undelivered bytes of the one-shot archive, terminates, answers zero into a non-empty buffer only at the end, and an error loses nothing |
| ZipEncoder.Collect | meta-memfault/recipes-memfault/memfaultd/files/memfaultd/src/util/zip.rs:27-28 | Streaming refines one-shot: for every sequence of buffer sizes, every pattern of short reads and every pattern of failures the bytes obtained are a prefix of one fixed archive, all of it once a zero-byte read says so, with progress on every other successful read |
| ZipFormat.ArchiveLength | meta-memfault/recipes-memfault/memfaultd/files/memfaultd/src/util/zip.rs:214-239 | The length announced before the first read is the length delivered if and only if the files still add up to their recorded sizes |
| ZipReader.ReadEntryAt | meta-memfault/recipes-memfault/memfaultd/files/memfaultd/src/util/zip.rs:241-309 | All fields of a directory header are where APPNOTE section 4.3.12 puts them, read there without the encoder's own constants: both versions 10, bit 3, stored, zero time, date, disk and attributes, the checksum, both sizes, the name and the offset |
| ZipReader.ReadMemberAt | meta-memfault/recipes-memfault/memfaultd/files/memfaultd/src/util/zip.rs:313-325 | From a local part the reader recovers name, checksum and contents; it accepts only a local header whose version, method, time, both sizes and name are those of the directory, and a descriptor with its checksum and sizes; the local checksum field is the one the list holds |
| ZipReader.ReadDirectoryAt | meta-memfault/recipes-memfault/memfaultd/files/memfaultd/src/util/zip.rs:143-151 | Walking the directory yields, for every file, the offset at which its local part really stands and the checksum of its contents |
| ZipReader.EndRecordAt | meta-memfault/recipes-memfault/memfaultd/files/memfaultd/src/util/zip.rs:329-352 | The end record is found from the end of the stream and carries the true count, directory size and directory offset |
| ZipReader.RoundTrip | meta-memfault/recipes-memfault/memfaultd/files/memfaultd/src/util/zip.rs:241-352 | An independent APPNOTE reader applied to the archive, which refuses it when local header, contents, descriptor and directory disagree in anything recorded twice, recovers exactly the names, checksums, contents, time fields and local checksum fields of the files, in order, whenever the 32-bit format can hold them |
| ZipReader.Transfer | meta-memfault/recipes-memfault/memfaultd/files/memfaultd/src/mar/export.rs:126-141 | End to end: announce a length, stream with any buffers, open the result; a complete transfer has exactly the announced length and opens to exactly the listed files |
| MarBatching.GatherMarEntriesToZip | meta-memfault/recipes-memfault/memfaultd/files/memfaultd/src/mar/upload.rs:75-123 | The one-pass grouping with running size and file index computes the greedy partition of the readable entries (first group: one entry plus as many more as fit; then again), and every batch lists the paths and the files of one run of entries, all runs together being all entries in order |
| MarBatching.IncludedExactly | meta-memfault/recipes-memfault/memfaultd/files/memfaultd/src/mar/upload.rs:80-94 | Every readable entry takes part, in order, and no other does |
| MarBatching.BatchesListEverything | meta-memfault/recipes-memfault/memfaultd/files/memfaultd/src/mar/upload.rs:111-121 | The paths of all batches, one after the other, are the paths of the readable entries in order, and their files the files of those entries; each batch has paths and files of the same consecutive run |
| MarBatching.FirstLenBounds | meta-memfault/recipes-memfault/memfaultd/files/memfaultd/src/mar/upload.rs:96-107 | A group's length is the largest one that fits the cap, or one |
| MarBatching.GreedyPartition | meta-memfault/recipes-memfault/memfaultd/files/memfaultd/src/mar/upload.rs:70-74 | Groups concatenate to the readable entries in order, none is empty, one exceeds the cap only if it is a single entry, and none had room for the next group's first entry |
| MarBatching.GreedyDrop | meta-memfault/recipes-memfault/memfaultd/files/memfaultd/src/mar/upload.rs:96-107 | Dropping entries from the front never increases the number of groups |
| MarBatching.GreedyOptimal | meta-memfault/recipes-memfault/memfaultd/files/memfaultd/src/mar/upload.rs:96-122 | No order-preserving split into archives that fit the cap or hold at most one entry uses fewer archives |
| MarBatching.GroupArchiveLength | meta-memfault/recipes-memfault/memfaultd/files/memfaultd/src/mar/upload.rs:99-105 | The size the cap was checked against is the length of the archive that is streamed, if and only if the recorded file sizes still add up |
| MarBatching.BatchWithinCap | meta-memfault/recipes-memfault/memfaultd/files/memfaultd/src/mar/upload.rs:62-68 | What the encoder produces for a batch is at most the cap unless the batch is one entry |
| MarBatching.UploadMarEntries | meta-memfault/recipes-memfault/memfaultd/files/memfaultd/src/mar/upload.rs:151-170 | The entries deleted are the first readable ones, exactly those whose files were accepted, all of them on success; they are those of the archives accepted so far |
| Alignment.MaskClearsLowBits | meta-memfault/recipes-memfault/memfaultd/files/memfaultd/src/util/math.rs:11 | Masking with the complement of 2^k - 1 subtracts the remainder modulo 2^k |
| Alignment.AlignUpBounds | meta-memfault/recipes-memfault/memfaultd/files/memfaultd/src/cli/memfault_core_handler/core_writer.rs:234-241 | Whatever the alignment, rounding never goes below the value and adds less than the alignment, so the padding is computed without underflow |
| Alignment.AlignUpIsLeast | meta-memfault/recipes-memfault/memfaultd/files/memfaultd/src/util/math.rs:4-12 | For alignment 0 or 1 nothing changes; for a power of two the result is the least multiple not below the value |
| Alignment.AlignUpNeedsPowerOf2 | meta-memfault/recipes-memfault/memfaultd/files/memfaultd/src/util/math.rs:7-12 | The mask yields the least multiple for an alignment if and only if that is a power of two; other alignments already fail on the value 1 |
| ElfFormat.HeaderRoundTrip | meta-memfault/recipes-memfault/memfaultd/files/memfaultd/src/cli/memfault_core_handler/core_writer.rs:118-132 | A written ELF header is read back field by field from wherever it stands |
| ElfFormat.ProgramHeaderRoundTrip | meta-memfault/recipes-memfault/memfaultd/files/memfaultd/src/cli/memfault_core_handler/core_writer.rs:159 | A written program header is read back field by field from wherever it stands |
| ElfFormat.OneTarget | meta-memfault/recipes-memfault/memfaultd/files/memfaultd/src/cli/memfault_core_handler/core_reader.rs:76-84 | Headers are accepted for one target only: exactly those that agree with an accepted one in magic, class, byte order, version, the two sizes and the machine |
| CoreWriter.StreamPositionTracker.WriteAll | meta-memfault/recipes-memfault/memfaultd/files/memfaultd/src/util/io.rs:50-74 | However few bytes each write takes, everything is written once; a refused write leaves a prefix; the position counts exactly what was written |
| CoreWriter.CoreWriter.WriteElfHeader | meta-memfault/recipes-memfault/memfaultd/files/memfaultd/src/cli/memfault_core_handler/core_writer.rs:104-136 | Writes the 64-byte header for the segments at hand, fails without writing when they outgrow 16 bits, and leaves a prefix when a write is refused |
| CoreWriter.CoreWriter.WriteProgramHeaders | meta-memfault/recipes-memfault/memfaultd/files/memfaultd/src/cli/memfault_core_handler/core_writer.rs:143-161 | Assigns every segment its padded offset, for any alignment, and writes the table with those offsets, or a prefix when a write is refused |
| CoreWriter.CoreWriter.WriteSegment | meta-memfault/recipes-memfault/memfaultd/files/memfaultd/src/cli/memfault_core_handler/core_writer.rs:170-189 | Appends exactly the segment's payload: the buffer, the memory read, or, when memory or output fails on the way, what was copied, filled up to the announced size |
| CoreWriter.CoreWriter.FillRemainingBytes | meta-memfault/recipes-memfault/memfaultd/files/memfaultd/src/cli/memfault_core_handler/core_writer.rs:195-203 | Fills with 0xEF exactly up to the segment's announced end, and not at all when the stream is already past it |
| CoreWriter.CoreWriter.WriteDataSegments | meta-memfault/recipes-memfault/memfaultd/files/memfaultd/src/cli/memfault_core_handler/core_writer.rs:163-193 | Pads up to each recorded offset and appends the data; stops at the first segment whose padding would be negative, with everything before it written |
| CoreWriter.CoreWriter.Write | meta-memfault/recipes-memfault/memfaultd/files/memfaultd/src/cli/memfault_core_handler/core_writer.rs:71-75 | The single pass produces the specified core file and leaves the segments with their offsets; unless a write is refused it fails exactly above 65,535 segments, writing nothing, and for cramped segments, writing what comes before; a refused write leaves a prefix of such a core |
| CoreLayout.CrampedExactly | meta-memfault/recipes-memfault/memfaultd/files/memfaultd/src/cli/memfault_core_handler/core_writer.rs:163-168 | Whatever memory and output do, the stream stands behind a segment's offset exactly where the input header and the segments say so |
| CoreLayout.OnlyTheTableMatters | meta-memfault/recipes-memfault/memfaultd/files/memfaultd/src/cli/memfault_core_handler/core_writer.rs:148-157 | With buffers no longer than announced the padding subtraction underflows if and only if the first padded offset lies before the end of the table; a table offset of at least the header size rules it out |
| CoreLayout.SmallTableOffset | meta-memfault/recipes-memfault/memfaultd/files/memfaultd/src/cli/memfault_core_handler/core_writer.rs:148-157 | A smaller table offset can go either way: with offset zero, one unaligned segment underflows and one page-aligned segment does not |
| CoreLayout.StartsInOrder | meta-memfault/recipes-memfault/memfaultd/files/memfaultd/src/cli/memfault_core_handler/core_writer.rs:150-157 | Segments lie in order and do not overlap |
| CoreLayout.CoreFileLayout | meta-memfault/recipes-memfault/memfaultd/files/memfaultd/src/cli/memfault_core_handler/core_writer.rs:138-168 | Each payload stands at its recorded offset, less than its alignment behind its predecessor's announced end and, for powers of two, at the least multiple; the gap before it is all zeros |
| CoreLayout.FailedReadFilled | meta-memfault/recipes-memfault/memfaultd/files/memfaultd/src/cli/memfault_core_handler/core_writer.rs:195-216 | In the file, a memory segment whose read failed after k bytes holds those k bytes and then 0xEF up to exactly the announced size; a payload is shorter if and only if memory ended early without failing |
| CoreReader.ForwardOnlySeeker.ReadExact | meta-memfault/recipes-memfault/memfaultd/files/memfaultd/src/util/io.rs:93-100 | Short reads accumulate to exactly the next n bytes, or the stream ends or fails |
| CoreReader.ForwardOnlySeeker.Seek | meta-memfault/recipes-memfault/memfaultd/files/memfaultd/src/util/io.rs:102-126 | Seeking skips forward (stopping quietly at the end of the stream, and with an error where reading fails) and refuses to go back or to seek from the end, leaving the position alone |
| CoreReader.SeeksForward | meta-memfault/recipes-memfault/memfaultd/files/memfaultd/src/util/io.rs:102-126 | A seek from the current position and one from the start to the same place are the same; it ends there or at the end of the stream, never before the position, and is refused exactly from the end and backwards |
| CoreReader.CoreReader.Open | meta-memfault/recipes-memfault/memfaultd/files/memfaultd/src/cli/memfault_core_handler/core_reader.rs:57-83 | Opens only streams that begin with a header of this target, and, unless reading fails, all of them |
| CoreReader.CoreReader.ReadProgramHeaders | meta-memfault/recipes-memfault/memfaultd/files/memfaultd/src/cli/memfault_core_handler/core_reader.rs:28-42 | Reads the table at its offset and sorts it by segment offset; what is returned is right, and without failures it is returned whenever it is there |
| CoreReader.CoreReader.ReadSegmentData | meta-memfault/recipes-memfault/memfaultd/files/memfaultd/src/cli/memfault_core_handler/core_reader.rs:44-54 | Reads a segment ahead of the position, and fails behind it or past the end; an announced size above what is granted or half the address space ends the program; what is returned stands at the segment's offset even after failures |
| CoreReader.CoreReader.ReadAllNoteSegments | meta-memfault/recipes-memfault/memfaultd/files/memfaultd/src/cli/memfault_core_handler/core_transformer.rs:132-147 | Collects the note segments that can be read, in header order, up to one that cannot be allocated; after failures every note returned is still genuine |
| StableSort.SortBySorts | meta-memfault/recipes-memfault/memfaultd/files/memfaultd/src/cli/memfault_core_handler/core_reader.rs:37-39 | The sort orders by key, keeps the elements and keeps the order of equal keys |
| CoreRoundTrip.HeaderAccepted | meta-memfault/recipes-memfault/memfaultd/files/memfaultd/src/cli/memfault_core_handler/core_writer.rs:111-116 | The reader accepts the written header if and only if there is a segment; then it is the header written |
| CoreRoundTrip.HeaderSays | meta-memfault/recipes-memfault/memfaultd/files/memfaultd/src/cli/memfault_core_handler/core_writer.rs:104-132 | The header found in the file is that of a 64-bit little-endian core dump for the machine of the input, with the table behind it, one entry per segment and everything else zero |
| CoreRoundTrip.HeadersReadBack | meta-memfault/recipes-memfault/memfaultd/files/memfaultd/src/cli/memfault_core_handler/core_reader.rs:34-41 | The program headers come back as written and in the same order; the sort changes nothing |
| CoreRoundTrip.SegmentReadBack | meta-memfault/recipes-memfault/memfaultd/files/memfaultd/src/cli/memfault_core_handler/core_reader.rs:44-54 | From any position at or before it a segment is read back, brought to its announced size with the zeros that follow; only a short last segment cannot be read |
| CoreRoundTrip.SegmentsReadBack | meta-memfault/recipes-memfault/memfaultd/files/memfaultd/src/cli/memfault_core_handler/core_reader.rs:44-54 | Whichever segments a forward-only reader picks, going through the headers in order it gets each of them, from wherever the one before left it, up to one that cannot be allocated |
| CoreRoundTrip.NotesReadBack | meta-memfault/recipes-memfault/memfaultd/files/memfaultd/src/cli/memfault_core_handler/core_transformer.rs:132-147 | Notes as long as announced come back exactly, in order: all of them, or those before the first one that cannot be allocated |
| CoreRoundTrip.ReadNotes | meta-memfault/recipes-memfault/memfaultd/files/memfaultd/src/cli/memfault_core_handler/core_transformer.rs:91-93 | Opening a written core, reading its program headers and its notes, if reading does not fail: refused without segments, otherwise every note that was written |
| CoreRoundTrip.ReadableNeverCramped | meta-memfault/recipes-memfault/memfaultd/files/memfaultd/src/cli/memfault_core_handler/core_reader.rs:29-35 | A core whose program headers could be read has a table offset with which writing never underflows |
| ElfNotes.BuildElfNote | meta-memfault/recipes-memfault/memfaultd/files/memfaultd/src/cli/memfault_core_handler/core_elf_note.rs:23-49 | The buffer filled in place is the encoded note; it fails if and only if a size outgrows its 32-bit field |
| ElfNotes.EncodedNoteZeros | meta-memfault/recipes-memfault/memfaultd/files/memfaultd/src/cli/memfault_core_handler/core_elf_note.rs:24-49 | A built note is a whole number of words; behind the name, at least its terminator, and behind the description there are only zeros, fewer than four after the latter |
| ElfNotes.ElfNoteIterator.Next | meta-memfault/recipes-memfault/memfaultd/files/memfaultd/src/cli/memfault_core_handler/core_elf_note.rs:153-169 | One step of the iterator on arbitrary bytes, including the offset a failed step leaves behind and a mapped-file list too large to reserve, which ends the program |
| ElfNotes.CollectNotes | meta-memfault/recipes-memfault/memfaultd/files/memfaultd/src/cli/memfault_core_handler/core_elf_note.rs:171-174 | Iteration over any bytes ends, yields at most one note per 12 bytes, and keeps notes whose description does not parse |
| ElfNotes.ParseUnderstands | meta-memfault/recipes-memfault/memfaultd/files/memfaultd/src/cli/memfault_core_handler/core_elf_note.rs:71-106 | Every kind of note is what it came from: name, type and description can be given back for process status, build id, auxiliary vector and unknown notes; a mapped-file note is exactly a CORE note of that type whose description has a header, with the parse of it; unknown is exactly what is none of the four |
| ElfNotes.CollectBuiltNotes | meta-memfault/recipes-memfault/memfaultd/files/memfaultd/src/cli/memfault_core_handler/core_elf_note.rs:71-174 | Collecting from built notes cut at any byte: each note wholly before the cut is yielded, in order, as what it should be understood as, up to one whose list cannot be reserved |
| ElfNotes.ReadNoteAt | meta-memfault/recipes-memfault/memfaultd/files/memfaultd/src/cli/memfault_core_handler/core_elf_note.rs:125-150 | Where a built note stands, exactly its name, type and description are read |
| ElfNotes.CutNoteFails | meta-memfault/recipes-memfault/memfaultd/files/memfaultd/src/cli/memfault_core_handler/core_elf_note.rs:135-137 | A note cut at any byte is not yielded; a further step goes on behind its header, or stays when the header itself is cut |
| ElfNotes.TruncatedNotes | meta-memfault/recipes-memfault/memfaultd/files/memfaultd/src/cli/memfault_core_handler/core_elf_note.rs:108-169 | Notes built one after the other and cut at any byte: iteration yields exactly those lying wholly before the cut |
| FileNotes.TryParse | meta-memfault/recipes-memfault/memfaultd/files/memfaultd/src/cli/memfault_core_handler/core_elf_note.rs:246-316 | The parser's loop computes the recursive reading of header, address triples and string table on arbitrary bytes, or ends the program when the list cannot be reserved |
| FileNotes.AbortsExactly | meta-memfault/recipes-memfault/memfaultd/files/memfaultd/src/cli/memfault_core_handler/core_elf_note.rs:266 | Whatever follows the header, the program ends if and only if 40 bytes for each counted mapping are more than is granted, or the count is above 230,584,300,921,369,395 |
| FileNotes.EntriesShape | meta-memfault/recipes-memfault/memfaultd/files/memfaultd/src/cli/memfault_core_handler/core_elf_note.rs:284-304 | On arbitrary bytes: entries are whole triples of the data, paths are missing from some entry on, and incomplete is set if and only if an entry or a path is missing |
| FileNotes.PathFound | meta-memfault/recipes-memfault/memfaultd/files/memfaultd/src/cli/memfault_core_handler/core_elf_note.rs:274-282 | A path whose terminator lies before the cut is read back and the next one starts behind it |
| FileNotes.PathMissing | meta-memfault/recipes-memfault/memfaultd/files/memfaultd/src/cli/memfault_core_handler/core_elf_note.rs:274-282 | From the first path that was cut on, no path is found |
| FileNotes.CutDescription | meta-memfault/recipes-memfault/memfaultd/files/memfaultd/src/cli/memfault_core_handler/core_elf_note.rs:246-316 | Cut anywhere after its header, a well-formed description gives every whole entry with its addresses, paths for a prefix of them and none after, and is marked incomplete if and only if something was cut; the program ends if and only if the uncut list cannot be reserved |
| MarCleaner.NeedIsLargerShortfall | meta-memfault/recipes-memfault/memfaultd/files/memfaultd/src/mar/clean.rs:173-191 | The four-way case split is always the componentwise larger shortfall; freeing at least that much is the same as meeting quota and headroom in both components |
| MarCleaner.CandidatesAreFolders | meta-memfault/recipes-memfault/memfaultd/files/memfaultd/src/mar/clean.rs:75-154 | The candidates are the staged folders with their own paths and sizes and the time since their timestamps, zero for the future; sorting keeps them all |
| MarCleaner.TotalIsStaged | meta-memfault/recipes-memfault/memfaultd/files/memfaultd/src/mar/clean.rs:122-160 | The total is the sum of the sizes of the staged folders |
| MarCleaner.OldestFoldersGo | meta-memfault/recipes-memfault/memfaultd/files/memfaultd/src/mar/clean.rs:169-213 | Over the folders as staged: with a folder, every folder of an earlier timestamp in the past is marked, and with a maximum age every folder whose timestamp lies further back |
| DiskSizes.OrderIsAdding | meta-memfault/recipes-memfault/memfaultd/files/memfaultd/src/util/disk_size.rs:37-62 | One size is at least another, or exceeds it, exactly when adding something, or something that is not nothing, to the other makes it up; what a saturating subtraction leaves makes up the larger |
| DiskSizes.Bounds | meta-memfault/recipes-memfault/memfaultd/files/memfaultd/src/util/disk_size.rs:37-62 | The componentwise maximum and minimum are the least upper and the greatest lower bound |
| MarCleaner.MarkEntriesForDeletion | meta-memfault/recipes-memfault/memfaultd/files/memfaultd/src/mar/clean.rs:161-214 | The marked entries are a prefix of the oldest-first order, quota marks first, expiry marks after |
| MarCleaner.QuotaLenShortest | meta-memfault/recipes-memfault/memfaultd/files/memfaultd/src/mar/clean.rs:193-206 | The quota part is the shortest prefix whose size strictly exceeds the need, or everything |
| MarCleaner.MarkedOldestFirst | meta-memfault/recipes-memfault/memfaultd/files/memfaultd/src/mar/clean.rs:169-213 | Nothing kept is older than something marked, everything older than a non-zero maximum age is marked, and every mark beyond the quota part is that old |
| MarCleaner.RemoveMarkedEntries | meta-memfault/recipes-memfault/memfaultd/files/memfaultd/src/mar/clean.rs:216-239 | Whichever removals fail, the size reported is that of the entries really removed |
| MarCleaner.CleanMarStaging | meta-memfault/recipes-memfault/memfaultd/files/memfaultd/src/mar/clean.rs:93-120 | One cleaning run: the marks, the removals and the space left |
| MarCleaner.Clean | meta-memfault/recipes-memfault/memfaultd/files/memfaultd/src/mar/clean.rs:37-54 | The configured limits tightened by the space asked for |
| MarCleaner.TotalSplit | meta-memfault/recipes-memfault/memfaultd/files/memfaultd/src/mar/clean.rs:112-115 | What is gone and what remains add up to what was there |
| MarCleaner.QuotasKept | meta-memfault/recipes-memfault/memfaultd/files/memfaultd/src/mar/clean.rs:93-214 | If all marked removals succeed, the rest is within the quota in both components, and free space reaches the minimum in both unless nothing is left |
| MarCleaner.AnswerIsSafe | meta-memfault/recipes-memfault/memfaultd/files/memfaultd/src/mar/clean.rs:37-54 | Whichever removals succeed, in each component where the answer is positive, writing the space asked for and that much more respects quota and headroom |
| LogFiles.LogFileControl.Rotate | meta-memfault/recipes-memfault/memfaultd/files/memfaultd/src/logs/log_file.rs:108-123 | Rotation makes a fresh file current and hands the old one over with the new UUID as its successor; if the new file cannot be opened the old one stays current |
| LogFiles.LogFileControl.RotateIfNeededNow | meta-memfault/recipes-memfault/memfaultd/files/memfaultd/src/logs/log_file.rs:157-166 | Rotates exactly when the file is large or old enough, and says whether it did, did not need to, or could not |
| LogFiles.LogFileControl.RotateUnlessEmptyNow | meta-memfault/recipes-memfault/memfaultd/files/memfaultd/src/logs/log_file.rs:168-173 | Rotates exactly when something was written, and says whether that worked |
| LogFiles.LogFileControl.CloseNow | meta-memfault/recipes-memfault/memfaultd/files/memfaultd/src/logs/log_file.rs:179-188 | A clean close hands over a non-empty file with an unrelated successor |
| LogRecovery.RecoverOldLogs | meta-memfault/recipes-memfault/memfaultd/files/memfaultd/src/logs/recovery.rs:96-149 | Deletes the files not worth recovering and hands over the others in order, with the successors that the pure core computed |
| LogRecovery.EachFileOnce | meta-memfault/recipes-memfault/memfaultd/files/memfaultd/src/logs/recovery.rs:39-94 | A file with a UUID and at least one byte is recovered, under its own path and UUID; every other one is deleted; each in the order of the listing |
| LogRecovery.GoesOnAs | meta-memfault/recipes-memfault/memfaultd/files/memfaultd/src/logs/recovery.rs:55-94 | The next UUID is that of the last file that has one, if it is not worth recovering, and otherwise a fresh one |
| LogChain.OpenCollector | meta-memfault/recipes-memfault/memfaultd/files/memfaultd/src/logs/log_collector.rs:49-61 | Opening the collector is recovery followed by a new file under the UUID recovery chose |
| LogChain.RecoverTwo | meta-memfault/recipes-memfault/memfaultd/files/memfaultd/src/logs/recovery.rs:53-94 | What recovery makes of the two files a crash inside a rotation leaves, in either order of modification |
| LogChain.FirstStart | meta-memfault/recipes-memfault/memfaultd/files/memfaultd/src/logs/recovery.rs:55-94 | Any directory of files with distinct UUIDs becomes a chain that ends at the newly opened file |
| LogChain.StepKeepsChain | meta-memfault/recipes-memfault/memfaultd/files/memfaultd/src/logs/log_file.rs:109-123 | Every write, rotation (also one that fails), crash and restart keeps the chain, or breaks it at the one position named |
| LogChain.ChainOverRuns | meta-memfault/recipes-memfault/memfaultd/files/memfaultd/src/logs/recovery.rs:56-57 | Over every run each completed log names the next, the last names the current file, and no UUID is handed over twice; a link fails if and only if it is at a recorded break: a clean close of a non-empty file, or a crash in a rotation with nothing of the old file on disk and that file listed first |
| LogChain.BytesCounted | meta-memfault/recipes-memfault/memfaultd/files/memfaultd/src/logs/log_file.rs:58-66 | Over every run, crashes and restarts included, the byte count is the sum of the sizes of the lines written since the current file was opened |
| LogChain.HandedOverWhenDue | meta-memfault/recipes-memfault/memfaultd/files/memfaultd/src/logs/log_file.rs:157-188 | Over every run: a check hands the file over exactly when those lines reach the rotation size or the file is old and the new one opens; a flush, and a clean close, exactly when something was written to it |
| LogCollector.HeadroomLimiter.CheckHeadroom | meta-memfault/recipes-memfault/memfaultd/files/memfaultd/src/logs/headroom.rs:49-125 | The limiter's transitions, its messages and its single rotation, with the unreachable case and the two errors as outcomes that change nothing |
| LogCollector.RateLimiter.RunLimited | meta-memfault/recipes-memfault/memfaultd/files/memfaultd/src/util/rate_limiter.rs:38-59 | An admitted call reports and clears the pending count and writes the record; a failing write loses the count all the same; a limited call is counted |
| LogCollector.Inner.ProcessLogRecord | meta-memfault/recipes-memfault/memfaultd/files/memfaultd/src/logs/log_collector.rs:173-208 | Headroom, rotation before, rate limiting and rotation after, in this order, each of which can fail |
| LogCollector.ProcessEntersOne | meta-memfault/recipes-memfault/memfaultd/files/memfaultd/src/logs/log_collector.rs:173-208 | Each record is entered exactly once, by its fate: written, counted as dropped, counted as limited, or lost to an error, alone or with the pending count |
| LogCollector.FatesWithoutFaults | meta-memfault/recipes-memfault/memfaultd/files/memfaultd/src/logs/log_collector.rs:173-208 | Only faults lose records: without any, headroom and token alone decide the fate of each record of a run |
| LogCollector.BooksOverRuns | meta-memfault/recipes-memfault/memfaultd/files/memfaultd/src/logs/log_collector.rs:173-208 | Over every run the log holds exactly the records written, in order, and reported plus pending counts equal the numbers dropped and limited, less the counts that errors lost |
| LogCollector.NothingVanishes | meta-memfault/recipes-memfault/memfaultd/files/memfaultd/src/logs/log_collector.rs:173-208 | Records received = written + headroom drops (reported or pending) + rate limited (reported or pending) + lost to errors; without faults nothing is lost |
| LogCollector.LogLineByLine | meta-memfault/recipes-memfault/memfaultd/files/memfaultd/src/logs/log_collector.rs:173-208 | Over every run the log is, line by line, what the arrivals and their fates say: a warning that names what is short as a shortage begins, the number of drops as it ends, the number of limited records with the latest one's time before the next record, and the records |
| LogCollector.RunIsActions | meta-memfault/recipes-memfault/memfaultd/files/memfaultd/src/logs/log_collector.rs:173-208 | Every run of the collector is a run of writes, each counted at the size of its line, and rotation checks |
| LogCollector.CurrentFileCounted | meta-memfault/recipes-memfault/memfaultd/files/memfaultd/src/logs/log_file.rs:58-66 | Over every run of the collector the byte count is the sum of the sizes of the lines in the current file |
| LogCollector.CollectingKeepsChain | meta-memfault/recipes-memfault/memfaultd/files/memfaultd/src/logs/log_collector.rs:173-208 | Collecting records never breaks the chain of logs |
| LogCollector.PanicsExactly | meta-memfault/recipes-memfault/memfaultd/files/memfaultd/src/logs/headroom.rs:71-79 | A run reaches the unreachable case if and only if some record finds exactly the minimum available, in both components, while no shortage is on, which the arrivals alone decide |
| LogCollector.HitsWithoutFaults | meta-memfault/recipes-memfault/memfaultd/files/memfaultd/src/logs/headroom.rs:62-79 | Without faults: if and only if some record finds exactly the minimum and is the first or follows one that had headroom |
| LogCollector.OneRotationPerShortage | meta-memfault/recipes-memfault/memfaultd/files/memfaultd/src/logs/headroom.rs:95-98 | While headroom lacks, the limiter rotates at most once, and remembers whether it did |
| LogCollector.ShortagesFramed | meta-memfault/recipes-memfault/memfaultd/files/memfaultd/src/logs/headroom.rs:50-55 | Every shortage is announced once when it begins, unless the warning cannot be written, and once when it ends |
| LogCollector.ReportNamesLatest | meta-memfault/recipes-memfault/memfaultd/files/memfaultd/src/util/rate_limiter.rs:15-26 | The pending rate-limit report carries the timestamp of the latest record it stands for |
| LogCollector.NeverOverfull | meta-memfault/recipes-memfault/memfaultd/files/memfaultd/src/logs/log_collector.rs:188-207 | The file being written is below the rotation size after every record, unless an error kept it from being rotated |
| CrashFreeIntervals.CrashFreeIntervalTracker.Collect | meta-memfault/recipes-memfault/memfaultd/files/memfaultd/src/metrics/crashfree_interval.rs:155-161 | Draining the channel counts every crash and moves the crash-free mark to the latest |
| CrashFreeIntervals.CrashFreeIntervalTracker.UpdateAt | meta-memfault/recipes-memfault/memfaultd/files/memfaultd/src/metrics/crashfree_interval.rs:76-118 | One update's marks and counts, with each of its clock readings |
| CrashFreeIntervals.IntervalsElapsed | meta-memfault/recipes-memfault/memfaultd/files/memfaultd/src/metrics/crashfree_interval.rs:132-153 | Whatever the clock shows: whole intervals are counted modulo 2^32 and the mark moves by those counted; a mark that lies ahead is replaced by the second reading |
| CrashFreeIntervals.TickSound | meta-memfault/recipes-memfault/memfaultd/files/memfaultd/src/metrics/crashfree_interval.rs:132-153 | An update keeps marks aligned, counted intervals disjoint and free of crashes, and leaves less than an interval uncounted |
| CrashFreeIntervals.IntervalsTelescope | meta-memfault/recipes-memfault/memfaultd/files/memfaultd/src/metrics/crashfree_interval.rs:76-92 | Operational counts sum to floor(elapsed / interval) over any schedule; counted crash-free intervals are disjoint, contain no collected crash inside and are exactly as many as the stretches between crashes hold, computed from the events alone; without crashes floor(elapsed / interval) |
| CrashFreeIntervals.RunTracks | meta-memfault/recipes-memfault/memfaultd/files/memfaultd/src/metrics/crashfree_interval.rs:76-92 | Over any schedule, crashes included: the crash-free count is that of the stretches (whole intervals from the start or the latest crash collected up to the last update before the next crash), and the mark is the end of the last of them |
| CrashFreeIntervals.OutnumberedExactly | meta-memfault/recipes-memfault/memfaultd/files/memfaultd/src/metrics/crashfree_interval.rs:76-86 | Crash-free intervals outnumber operational ones if and only if the stretches hold more whole intervals than the time between the operational readings at the start and at the last update; that takes more whole intervals between the crash-free readings than between the operational ones |
| CrashFreeIntervals.OutnumberedOnce | meta-memfault/recipes-memfault/memfaultd/files/memfaultd/src/metrics/crashfree_interval.rs:52-55 | The witnesses: one crash-free interval and no operational one, because the two readings of an update differ, or because the two readings at the start did |
| CrashFreeIntervals.CrashesConserved | meta-memfault/recipes-memfault/memfaultd/files/memfaultd/src/metrics/crashfree_interval.rs:126-130 | Every crash captured is collected exactly once, in order, or still waits in the channel; the counts reported add up to the crashes collected |
| PersistentRateLimiter.DecimalRoundTrip | meta-memfault/recipes-memfault/memfaultd/files/memfaultd/src/util/persistent_rate_limiter.rs:45 | Printing a 64-bit number in decimal and parsing it gives it back, and it holds no space |
| Decimals.DigitsAppend | meta-memfault/recipes-memfault/memfaultd/files/memfaultd/src/util/persistent_rate_limiter.rs:45 | Printing and parsing are decimal: another ASCII digit stands for ten times the number and the digit |
| PersistentRateLimiter.SignedNumbers | meta-memfault/recipes-memfault/memfaultd/files/memfaultd/src/util/persistent_rate_limiter.rs:45 | Digits may carry either sign, and what does not fit 64 bits is no number |
| PersistentRateLimiter.Limiter.Load | meta-memfault/recipes-memfault/memfaultd/files/memfaultd/src/util/persistent_rate_limiter.rs:32-59 | Refuses a zero count, a duration below a millisecond and a file that cannot be opened; a missing file is an empty history; garbage is skipped; newest first |
| PersistentRateLimiter.RefusedConfigurations | meta-memfault/recipes-memfault/memfaultd/files/memfaultd/src/util/persistent_rate_limiter.rs:32-38 | A configuration is refused exactly when the count or the duration in whole milliseconds, rounded towards zero, is zero |
| PersistentRateLimiter.GarbageSkipped | meta-memfault/recipes-memfault/memfaultd/files/memfaultd/src/util/persistent_rate_limiter.rs:43-47 | Words that are no representable date are skipped wherever they stand, and nothing else is |
| PersistentRateLimiter.LoadedInOrder | meta-memfault/recipes-memfault/memfaultd/files/memfaultd/src/util/persistent_rate_limiter.rs:40-51 | The history loaded is what the file holds, newest first |
| PersistentRateLimiter.Limiter.Check | meta-memfault/recipes-memfault/memfaultd/files/memfaultd/src/util/persistent_rate_limiter.rs:61-74 | The check against the oldest entry and the truncated push |
| PersistentRateLimiter.Limiter.Save | meta-memfault/recipes-memfault/memfaultd/files/memfaultd/src/util/persistent_rate_limiter.rs:82-93 | The loop writes the history as decimal seconds; a file that cannot be opened stays as it was, and one that cannot be written is cut |
| PersistentRateLimiter.SavedText | meta-memfault/recipes-memfault/memfaultd/files/memfaultd/src/util/persistent_rate_limiter.rs:82-93 | The text of a history of two, byte for byte |
| PersistentRateLimiter.LoadSaved | meta-memfault/recipes-memfault/memfaultd/files/memfaultd/src/util/persistent_rate_limiter.rs:40-51 | Loading a saved history gives it back, rounded down to whole seconds |
| PersistentRateLimiter.RunGood | meta-memfault/recipes-memfault/memfaultd/files/memfaultd/src/util/persistent_rate_limiter.rs:61-74 | Over any non-decreasing sequence of load-check-save calls, a call is allowed if and only if fewer than count were, or the count-th last of them, as saved, is at least duration ago |
| PersistentRateLimiter.DecidesExactly | meta-memfault/recipes-memfault/memfaultd/files/memfaultd/src/util/persistent_rate_limiter.rs:61-74 | At any times: a call is decided as the exact sliding window decides, if and only if the instant duration ago does not fall in the second of the count-th last allowed call, before it; a call is never refused while the window is not full |
| PersistentRateLimiter.SlidingWindow | meta-memfault/recipes-memfault/memfaultd/files/memfaultd/src/util/persistent_rate_limiter.rs:14-18 | Allowed calls i and i + count are less than a second short of duration apart, and at least duration apart at whole seconds |
| PersistentRateLimiter.RefusedExactly | meta-memfault/recipes-memfault/memfaultd/files/memfaultd/src/util/persistent_rate_limiter.rs:62-68 | At whole seconds a call is refused if and only if count allowed calls lie less than duration before it |
| PersistentRateLimiter.FractionForgotten | meta-memfault/recipes-memfault/memfaultd/files/memfaultd/src/util/persistent_rate_limiter.rs:89-91 | The witness between whole seconds: two calls a millisecond apart both pass a limit of one per second |
| MarExport.MarExportHandler.HandleGetMar | meta-memfault/recipes-memfault/memfaultd/files/memfaultd/src/mar/export.rs:88-124 | Keeps the current export while its entries exist, prepares the first batch otherwise, and answers 200, 204 or 406, or 500 when the staging directory cannot be listed |
| MarExport.GetAnswers | meta-memfault/recipes-memfault/memfaultd/files/memfaultd/src/mar/export.rs:76-124 | The current export stays if and only if all its entries exist; otherwise it becomes the longest run of readable entries from the front within ten megabytes, or the first, with their paths, their files and the decimal hash of the paths; the answer is by format and content, under the quoted hash |
| MarExport.ListingFails | meta-memfault/recipes-memfault/memfaultd/files/memfaultd/src/mar/export.rs:75-99 | When the directory cannot be listed, a GET that has to list it is answered 500 and leaves no export; any other is answered as if it could be |
| MarExport.MarExportHandler.HandleDelete | meta-memfault/recipes-memfault/memfaultd/files/memfaultd/src/mar/export.rs:188-222 | 404 without an export, 412 on another hash, else removal of the export's entries, each of which may fail |
| MarExport.TrimQuoted | meta-memfault/recipes-memfault/memfaultd/files/memfaultd/src/cli/memfaultd_client.rs:58-67 | Trimming the quotes of a served ETag gives back the hash |
| MarExport.DeleteByHash | meta-memfault/recipes-memfault/memfaultd/files/memfaultd/src/mar/export.rs:188-222 | After any interleaving, a DELETE with the trimmed ETag of a 200 response is carried out if and only if the current export has the same hash; then exactly the removable entries of the current export go, otherwise nothing changes |
| MarExport.DeleteOnlyWhatWasServed | meta-memfault/recipes-memfault/memfaultd/files/memfaultd/src/mar/export.rs:49-59 | Unless the two collide in the hash: it is carried out if and only if the archive served is the current export, removes exactly its removable entries, and otherwise answers 404 or 412 and changes nothing |
| MarExport.QuotedTagRefused | meta-memfault/recipes-memfault/memfaultd/files/memfaultd/src/mar/export.rs:199-207 | A DELETE carrying a served ETag as it was received, quotes included, always answers 404 or 412 and changes nothing |
| MarExport.UnservedRemoved | meta-memfault/recipes-memfault/memfaultd/files/memfaultd/src/mar/export.rs:98-110 | The witness: after a GET answered 406, a DELETE without If-Match removes entries that were never sent |
| MarExport.UnservedExactly | meta-memfault/recipes-memfault/memfaultd/files/memfaultd/src/mar/export.rs:98-124 | Over any run the current export was never sent if and only if a refused GET prepared it, no acceptable GET came since, and the same archive had not been served before |
| MarExport.UnconditionalDelete | meta-memfault/recipes-memfault/memfaultd/files/memfaultd/src/mar/export.rs:188-222 | A DELETE without If-Match removes exactly the removable entries of the current export, sent or not as above, and answers 404 without one |
| MarExport.ServedIsCurrent | meta-memfault/recipes-memfault/memfaultd/files/memfaultd/src/mar/export.rs:94-102 | A 200 response is about the current export, all of whose entries exist |
| MarExport.SameArchiveServed | meta-memfault/recipes-memfault/memfaultd/files/memfaultd/src/mar/export.rs:26-27 | Later GETs serve the same archive under the same ETag while its entries exist and no DELETE matches |

## Left out

- LogChain.ChainOverRuns: recovery and reopening are one atomic step, recovery callbacks succeed, and files found at a restart are the ones the daemon itself left.
- LogCollector.NothingVanishes: a failed write leaves no part of its line in the log; the record counted as lost may be there in part.
- CrashFreeIntervals.IntervalsTelescope: a crash that arrives while an update runs is ordered after that update, and no update has more intervals to count than 32 bits hold.
- MarExport.DeleteOnlyWhatWasServed: the hash is 64 bits wide, so the archive served and the current one can collide; MarExport.DeleteByHash says what happens then.
- CoreReader.CoreReader.ReadProgramHeaders: memory for the table, less than 4 MB, can always be allocated.
- FileNotes.TryParse: how much can be allocated is one number for the whole iteration over a buffer.
- PersistentRateLimiter.RunGood: every save of the run succeeds, which PersistentRateLimiter.Limiter.Save does not promise.
- `calc_output_size` of the core writer: it uses the input's segment count and 16-bit arithmetic and aligns after segments instead of before, so it is no bound on the output.
- The choice of segments in `core_transformer.rs` (stacks, dynamic linker data, memory range merging); the helper files it relies on are not part of this model.
- Decoding of the fields inside process status and auxiliary vector notes.
- Fleet sampling before upload, the chunk formats of the export, HTTP plumbing and configuration.
- The manifest of MAR entries, JSON and CBOR encoding, compression: library code. A log line is an abstract value with a size.
- The token bucket behind the log rate limiter, UUID generation, the path hasher: an oracle, a supply of unused numbers, and a function parameter.
- Directory listings: which files exist and in which order they are listed is an input.
- Threads: every operation under a lock is one step.
