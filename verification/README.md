# A verified model of unearth's recovery engine

`unearth` recovers files from disk images in two ways: by carving, which scans the bytes for signatures, and by reading
file systems. These Dafny modules model the parts of it that keep state and have a simple meaning, and prove that
meaning for every input. A source is an immutable sequence of bytes; a positioned read returns the bytes that exist.
Every constant that only bounds memory (the 1 MiB windows, the chunk, the copy buffer) is a parameter of at least one,
and the size from which the machine grants no buffer is another, so that no proof leans on their values.

**Carving.** `Carving.dfy` says what a scan does in one pass, byte position by byte position. `Carver.dfy` is the
engine: overlapping chunks, jumps over blocks of zeros, the signature index, periodic checkpoints, cancellation,
resumption. It is proved equal to the one pass for all sizes, where its buffers show what there is, and to a pass of
what they show for all tables. `RunLog.dfy` is a second account of a scan, as a log of the hits it follows up, from
which every counter and every row is derived anew. `Invariants.dfy` gives what every reachable state keeps,
`Resume.dfy` shows that resuming changes nothing (and what it does change), `StartOver.dfy` what any text in the place
of a checkpoint does, `Checkpoint.dfy` and `CheckpointRoundTrip.dfy` model the checkpoint's text character by
character. `EndToEnd.dfy` concludes that a file of the test corpus planted in any image comes back. `Footer.dfy`,
`Jpeg.dfy` and `Zip.dfy` are the windowed searches for a file's end, each proved against a search of the whole source
that has a declarative meaning of its own; `ZipFormat.dfy` lays archives out by an encoder. `Signatures.dfy` is the
signature index, `Lengths.dfy` the declarative length strategies, `Custom.dfy` the carvers injected at run time,
`Widths.dfy` those of them whose fields the engine's 64-bit sums do not fit, `FarArchive.dfy` an archive whose declared
end they do not fit, `Text.dfy` the hexadecimal and decimal texts. `FormatExamples.dfy` has one literal example of each
format, beside what is read from it or written for it.

**Hashing.** `Words.dfy` and `Fips180.dfy` transcribe sections 4.1.2, 5.1.1 and 6.2.2 of FIPS 180-4, with what its
functions do to each bit; `Fips180Example.dfy` carries the standard's example "abc" through all 64 rounds to its digest.
`Hash.dfy` is the streaming class with its 64-byte buffer and the unrolled block function, proved to compute that digest
for every way to cut up the message.

**ext2/3/4.** `Ext4Extents.dfy`, `Ext4Indirect.dfy` and `Ext4Files.dfy` map logical blocks to the volume and reassemble
files; `Ext4Journal.dfy` and `Ext4JournalIndex.dfy` parse the jbd2 journal's tags and index the block copies in it;
`Ext4Walk.dfy` walks the directories, with no assumption on the graph they form. **exFAT.** `ExfatEntries.dfy` parses
directory entry sets and inverts their encoder, `ExfatChain.dfy` copies files along the allocation table.
`FreeRuns.dfy` merges free blocks and clusters into runs, for both. `Ext4OnDisk.dfy` and `ExfatOnDisk.dfy` say the same
of the bytes of the source, for volumes that start anywhere in it, with one literal structure of each kind.

`Bytes.dfy` and `Arith.dfy` hold what the others share.

## Findings

Where a promise does not hold of the code as it stands, a lemma gives a concrete input and another the exact condition.

- Custom carvers. The 64-bit fields of a spec are accepted as they are, and the sums the engine makes of them wrap in a
  release build (`Widths.SpecIsAccepted`). A magic offset near 2^64 makes the scan stall (`FarMagicStalls`,
  `ScanWithFarMagic`; exact condition in `Carver.CarveSeeded`, `RoomIff`) or takes the lookahead from a chunk, so that
  a whole scan comes back without a file that is there (`ScanMissesHidden`, `ShortOverlapMisses`; the buffers show what
  there is exactly when `Carver.SeesAll` holds of the table, `SeesAllIff`, and where no signature hides another that is
  exactly when the overlap covers the lookahead, `CoveredLookaheadIff`). A tag offset near 2^64 stops the search
  (`WrappedTagTrips`, `TripsIff`) and a length field behind the largest buffer stops the program (`FarFieldTrips`); a
  run ends so exactly when some chunk it gets to comes to such a place (`Carver.CarveSeeded`, `EngineTrips`). An
  allowance for line ends near 2^64 takes none (`EndlessTrailingTakesNothing`, `FooterFoundIff`). `Carver.SumsFit` is a
  check on the table and the machine's largest buffer that rules out what stops or stalls a scan or hides a hit from
  it, `Footer.RoomForTrailing` the one for footers; fields below a third of that buffer pass both (`ModestFieldsFit`).
- Resume. The manifest survives a checkpoint, and the books of the resumed run balance, exactly when the signature
  table resolves the extension of every row (`ManifestSurvivesIff`, `ResumeIsTransparent`, `ResumedInvariantIff`). A
  ZIP that was written under an extension refined from its content, such as docx, is counted after a resume but no
  longer listed (`RefinedRowIsLost`). The count of oversized files is not in the checkpoint either; the two parts add
  up.
- Lengths from 64-bit header fields. A 7-Zip header can declare an end that wraps past 2^64 and is then taken to be
  within the limit (`Lengths.PastLimitIff`, exactly when); so can a 64-bit ELF and an Outlook header
  (src/carver.rs:618, 2952, 6645). The scan then puts its skip boundary before the region it has just claimed
  (`Invariants.BoundaryFallsIff`) and recovers files inside it once more (`FarArchive.RowsOverlap`, `ScanOverlaps`).
  The counters, the provenance of the rows and deduplication are not harmed. Without nesting the claimed regions are
  disjoint exactly if they all end at a 64-bit position, and the boundary never moves back while they do
  (`Invariants.SeenClaims`, `Carver.ChunkedClaims`). `Invariants.LengthsEnd` is the check on table and source that
  rules it out; of the modelled strategies only the archive's can fail it (`LengthEndsIff`).
- A corrupt checkpoint is meant to start the scan over (src/carver.rs:197-198). The run starts at the beginning of its
  range exactly when the last `pos` line that can be read, if there is one, does not point behind that beginning, and
  in the state of a fresh run exactly when the last number for the skip boundary and for each tally is 0, no line is a
  readable row and no digest is new (`StartOver.StartsOverIff`). A text of nothing but a `pos` line sends the run there
  with an empty tally (`LonePosition`), one of nothing but the largest skip boundary starts it over and finds nothing
  in any source (`LoneBoundary`).
- Sparse ext2/3 files. A zero interior pointer is a hole of many blocks that the mapping skips without emitting
  anything, so that everything behind it moves forward (`ZeroIndirectPointerShiftsTheMap`, `ReadSparseFile`,
  `InStepIff`).
- The directory walk of ext goes depth first and never returns to a directory, so that one met first at depth 64 hides
  its subdirectories even if a short way leads to them (`ShortWayMissed`). In a tree of directories it is complete
  exactly when none is more than 64 steps down (`TreeCompleteIff`); on any graph there are a sufficient and a necessary
  condition (`ShallowIsComplete`, `CompleteNeedsNear`), and an exact one on the directories expanded at depth 64
  (`CompleteIff`).
- Copying along an exFAT chain goes on behind a cluster that a truncated source cuts off, and puts the next cluster
  where the rest of it belongs; such a copy can be long enough to be kept (`CutCopyIsKeptAndWrong`, `CopyFollowsChain`,
  `ChainSufficesIff`).
- On an exFAT volume of 2^32 - 1 clusters the number of the last one wraps, and when it is free its range is reported
  at the start of the heap (`LargestVolumeMisreported`, `LargestVolumeIff`).
- The two shifts of an exFAT boot sector are added as bytes (src/exfat.rs:98), so that large ones pass the check; the
  cluster size is then 0 exactly when the sum wrapped (`FreeRuns.ParsedIff`). Such a volume's root directory reads as
  empty.
- A comment in `find_footer` (src/carver.rs:6952) says that the search starts past the header; the code starts at the
  first byte of the file. The model follows the code. A spec whose magic is its marker is accepted and carves the magic
  alone (`MagicAsMarker`); both searches find the same marker exactly when none starts inside the header
  (`SameAsPastHeaderIff`).
- Digests in a checkpoint are parsed two characters at a time by a routine that accepts a plus sign and both cases, so
  that several texts read as one digest (`OneDigestManyTexts`; `DigestTexts` says which texts, and which of them is the
  digest's own).

## Model

| member | source | states |
|---|---|---|
| Carver.CarveSeeded | src/carver.rs:161-348 | The call goes round for ever, stops with an error or returns, the first two exactly under a condition on the table, the chunk, the bytes left and the places the run comes to; when it returns, tally, position and checkpoints are those of its chunks, which keep the invariant of the books for every table and source and whose regions are disjoint exactly if they all end, and it reaches the end unless stopped or cancelled; its counters are those of the log of the hits it follows up, and every new row stems from such a hit; where the buffers show what there is, state, position and tally are those of the one-pass scan over the positions it got through, for all chunk, window and buffer sizes and any cancellation |
| Carver.ScanChunks | src/carver.rs:218-346 | The chunk loop goes round for ever exactly when more is left than the wrapped buffer holds and nothing cancels it, and stops with an error exactly when a chunk that is not cancelled does; else it has the state after some number of chunks, the scanned byte count and checkpoints spaced by the interval |
| Carver.DoChunk | src/carver.rs:218-326 | One chunk has the state of one pass over its positions by a reader who sees its buffer, stops with an error exactly where that pass does, and leaves the position where the chunk arithmetic puts it |
| Carver.AdvancesIff | src/carver.rs:222-235 | A chunk leaves the position where it was exactly when it reads nothing, or the 64-bit sum of chunk and overlap wrapped and more is left than fits |
| Carver.ChunkContinues | src/carver.rs:173-185 | Where the buffers show what there is, a chunk continues the pass over the whole range |
| Carver.ChunkedIsScan | src/carver.rs:218-345 | Then any number of chunks is one pass |
| Carver.SeesAllIff | src/carver.rs:173-185 | The first chunk of every source shows the right signature at every position it scans if and only if every match that a chunk can meet is decided by the bytes in its buffer; then all chunks do |
| Carver.CoveredLookaheadIff | src/carver.rs:173-185 | For a table in which each signature is found in its own shortest window, that is so if and only if the wrapped overlap covers the lookahead |
| Carver.ChunkedKeeps | src/carver.rs:218-345 | After any number of chunks, whatever their buffers show, the books balance |
| Carver.ChunkedClaims | src/carver.rs:218-345 | After any number of chunks the claimed regions of a run without nesting are disjoint if and only if they all end at a 64-bit position, which they do where all lengths end; while the new ones end, the skip boundary has not moved back |
| Carver.SumsFitIsEnough | src/carver.rs:173-185 | A check on the table and the largest buffer before the scan that rules out wrapped sums, a refused buffer and missing lookahead |
| Carver.SumsFitNeverTrips | src/carver.rs:254-318 | It rules out error stops as well, in every run |
| Carver.RoomIff | src/carver.rs:179-185 | The buffer is larger than the overlap exactly when their 64-bit sum does not wrap |
| Carver.ScanChunk | src/carver.rs:236-319 | The inner loop over one buffer, zero jumps included, equals one pass over its positions by a reader who sees the buffer, and stops with an error exactly if that pass comes to a position that does |
| Carver.VisitPosition | src/carver.rs:254-318 | What the buffer shows at one position has the effect the pass gives to it, or the program stops with an error, exactly in two cases |
| Carver.HandleHit | src/carver.rs:268-318 | Length, size limits, validation, grading, writing, the file limit and the skip boundary of one hit, whose 64-bit sum wraps; an error stop exactly for a length field behind the largest buffer |
| Carver.BufferDecidesIff | src/carver.rs:173-179 | A buffer shows at a position what the whole source does exactly when it holds the bytes that decide the match there |
| Carver.ZerosAreQuiet | src/carver.rs:236-253 | No position jumped over in a block of zeros holds a hit or stops the search |
| Carver.WriteFile | src/carver.rs:7166-7261 | Hashing in pieces and recording gives the row, tally and dedup set of writing the region at once, a short source included |
| Carver.CopyAndHash | src/carver.rs:7184-7240 | Copying in pieces of any size counts and hashes exactly the bytes the source has of the region |
| Carver.CarveStats.Enter | src/carver.rs:7247-7260 | A written file enters counters, per-type count and rows together |
| Carver.EveryRunKeeps | src/carver.rs:218-345 | What every run of chunks keeps, in one statement: books, claims, counters by the log of hits, rows that stem from hits |
| Carver.StoppedAtChunkStart | src/carver.rs:303-316 | A run that meets its limit on the number of files stays at the start of the chunk, so that a resumed one looks at all of it again |
| Carver.ChunkedIsLogged | src/carver.rs:254-318 | After any number of chunks the state is the one that the log of the positions they got through leaves |
| Carver.ChunkedIsAccounted | src/carver.rs:254-318 | The counters are those of a log of hits and the new rows stem from hits; where the buffers show what there is, from those of the one pass |
| Carver.RangeMeans | src/carver.rs:181-182 | The positions of a run are those from the start option to the end option or the source's end |
| RunLog.SeenIsLogged | src/carver.rs:254-318 | A pass over any positions takes the state of a log of hits to that of the log continued over them: skip boundary, digests, every counter, every row, claims and stop |
| RunLog.LogFromIsLog | src/carver.rs:254-318 | A continued log has an entry for a position if and only if the hit there is followed up given the entries before |
| RunLog.EntriesMean | src/carver.rs:254-300 | Every entry is of a hit on the alignment, outside what was claimed, with a length of at least the minimum, and is counted as oversized if the length is above the maximum, as rejected if its header is invalid and headers are checked, as a duplicate if its digest is known, and written otherwise |
| RunLog.KnownMeans | src/carver.rs:7229-7239 | A digest is known if and only if it was at the start or, with deduplication, is that of a file written before |
| RunLog.BoundaryMeans | src/carver.rs:275-303 | Files have to start at or behind the wrapped end of the last claimed one that is no volume image |
| RunLog.OneLog | src/carver.rs:254-318 | For readers who see all there is, source, options and starting state leave only one log, and so only one value of every counter |
| RunLog.RowStems | src/carver.rs:7166-7261 | A row has the offset of an aligned hit, an accepted length, a header that is not invalid where headers are checked, the size and SHA-256 of the bytes that exist, its type's extension or the refined one, the name of its place; it is verified exactly if the header is valid, the end is marked or below the cap, and all bytes are there |
| RunLog.AccountedRows | src/carver.rs:7166-7261 | So does every row beyond those a run starts with |
| Carving.ScanSplit | src/carver.rs:218-345 | A pass can be cut in two anywhere |
| Carving.ScanQuiet | src/carver.rs:236-253 | Positions without a hit change nothing |
| Invariants.ReachableStates | src/carver.rs:161-348 | In every state of the one pass of a fresh run: the counters agree with the rows and each other, every row names bytes of the source and their SHA-256, with dedup all digests differ from each other and the seed; without nesting, what non-volume files claim is disjoint, ascending and below the skip boundary if and only if all of it ends at a 64-bit position |
| Invariants.TypesCount | src/carver.rs:7251 | The count of a type is the number of rows with its extension |
| Invariants.ScanKeeps | src/carver.rs:254-318 | Any stretch of scan keeps counters, provenance and dedup set consistent |
| Invariants.SeenKeeps | src/carver.rs:236-319 | So does any stretch of scan by a reader who sees no further than some end, and with it every run of the engine |
| Invariants.SeenClaims | src/carver.rs:254-318 | Without nesting, any such stretch that starts with disjoint regions ends with disjoint regions if and only if all claims end at a 64-bit position; while the new claims end, the skip boundary does not move back; where all lengths end, all claims do |
| Invariants.ScanClaims | src/carver.rs:254-318 | The same of the one pass |
| Invariants.BoundaryFallsIff | src/carver.rs:275-302 | A claim leaves the skip boundary before its own start if and only if its end is no 64-bit number |
| Invariants.LengthEndsIff | src/carver.rs:513-620 | Of the modelled strategies a length can end past 2^64 for an archive alone, exactly where the header in the source declares an end that wraps to one within the limit |
| Invariants.WriteKeeps | src/carver.rs:7241-7261 | One written or duplicate file keeps the counters, the provenance of the rows and the dedup set consistent |
| Invariants.ClaimKeeps | src/carver.rs:300-316 | A claim outside the claimed regions keeps them disjoint if and only if it ends at a 64-bit position |
| Resume.ResumeIsTransparent | src/carver.rs:196-211 | From a checkpoint at any position, of a fresh run or one resumed before, the resumed run ends with the skip boundary, dedup set, claims and counters of the uninterrupted one; its manifest is the same exactly when every row's extension is in the signature table; oversized files add up |
| Resume.ResumedInvariantIff | src/carver.rs:196-211 | In every state of a resumed run the books balance exactly when the table resolves the extension of every row written before; then its regions are disjoint if those of the uninterrupted run are |
| Resume.InterruptedThenResumed | tests/scan_resume_test.rs:216-260 | Two calls of the engine, the first cancelled anywhere, the second resumed from its last checkpoint with other chunk and buffer sizes, leave the tally of one uninterrupted pass, for tables whose sums fit and extensions are known |
| Resume.GraftScan | src/carver.rs:196-211 | What is found from a state on does not depend on the rows found before |
| Resume.ScanFits | src/carver.rs:360-401 | Every row a scan makes fits on one checkpoint line |
| Resume.RestartState | src/carver.rs:196-211 | The state loaded from a checkpoint is the interrupted one with the rows that survived |
| Resume.NeverStops | src/carver.rs:296-316 | Without a limit on the number of files a scan never stops early |
| Checkpoint.ReadCheckpoint | src/carver.rs:406-488 | The parsing loop reads line after line as specified, unreadable lines adding nothing |
| Checkpoint.WriteCheckpoint | src/carver.rs:360-401 | The text lists position, boundary, counters, every digest of the set in some order, and every row |
| CheckpointRoundTrip.RoundTrip | src/carver.rs:360-488 | Reading back any written checkpoint gives position, skip boundary, dedup set, counters and the rows with a known extension |
| CheckpointRoundTrip.ReadFileLine | src/carver.rs:446-476 | A row's line, blanks in its name included, gives the row back exactly if the table knows its extension |
| CheckpointRoundTrip.ReadNumberLine | src/carver.rs:412-445 | A counter's line sets that counter to its number |
| CheckpointRoundTrip.KeywordRoundTrip | src/carver.rs:370-440 | Every keyword written is read as itself |
| CheckpointRoundTrip.ManifestSurvivesIff | src/carver.rs:490-496 | The manifest survives a checkpoint if and only if the table resolves every row's extension |
| CheckpointRoundTrip.RefinedRowIsLost | src/carver.rs:490-496 | A checkpoint with one docx row reads back with the file counted and not listed |
| FormatExamples.CheckpointExample | src/carver.rs:360-488 | A checkpoint text in full, written for a state and read back to it |
| FormatExamples.LenientNumbers | src/carver.rs:409-445 | A number that cannot be read leaves a position as it was and sets a tally to 0 |
| FormatExamples.LenientLines | src/carver.rs:412-416 | Blanks around a line and comments are passed over |
| FormatExamples.RowNames | src/carver.rs:7180-7193 | The name of a row, plain and grouped by type |
| StartOver.StartsOverIff | src/carver.rs:196-211 | A run that is given any text starts at the beginning of its range if and only if there is nothing to scan or the last readable `pos` line does not point behind it, and in the state of a fresh run if and only if the last number of the skip boundary and of each tally is 0, no line is a row that reads, and no digest is outside the seed |
| StartOver.LastNumberCounts | src/carver.rs:409-445 | A counter gets the number of the last line that gives it one, whatever the other lines are |
| StartOver.LonePosition | src/carver.rs:196-211 | A text of nothing but a position starts the run there with an empty tally |
| StartOver.LoneBoundary | src/carver.rs:196-211 | A text of nothing but the largest skip boundary lets the run start at the beginning and find nothing |
| Footer.FindFooter | src/carver.rs:6933-6997 | For every window size the windowed search gives the answer of one pass with the wrapped allowance behind the marker, and ends |
| Footer.FooterFoundIff | src/carver.rs:6971-6977 | It gives the promised length exactly when there is no marker, the sum of marker end and allowance stays below 2^64, or no line end stands behind the marker |
| Footer.RoomForTrailing | src/carver.rs:6971-6977 | A limit that leaves room for the allowance is enough |
| Footer.SameAsPastHeaderIff | src/carver.rs:6952-6954 | Starting at the file's first byte finds the same marker as starting past its header exactly when no marker starts inside the header |
| Footer.MarkerAtStart | src/carver.rs:6952-6965 | A marker at the file's start ends the file there |
| Footer.FooterLengthMeaning | src/carver.rs:6931-6997 | The promised length ends behind the first marker in the range and the longest run of CR/LF behind it within `trailing` and the limit, if and only if there is one |
| Footer.WindowSearch | src/carver.rs:6959-6965 | What a window shows about occurrences is what the source holds |
| Footer.TrailingEol | src/carver.rs:6970-6984 | The run of line ends is counted across the window's edge, up to the wrapped bound |
| Footer.FindSubsequence | src/carver.rs:7275-7280 | The needle stands where the result says and nowhere before; nothing is found exactly of an empty needle or one that stands nowhere |
| Jpeg.ComputeJpegLength | src/carver.rs:969-1023 | For every window size the windowed walk gives the one-pass length |
| Jpeg.JpegLengthMeaning | src/carver.rs:963-1023 | That length ends at the first point where end markers outnumber the start markers nested in the outer one, if and only if there is one |
| Jpeg.WalkWindow | src/carver.rs:985-1018 | One window keeps the nesting depth equal to the balance of markers so far, or finds the closing one |
| Jpeg.RereadLastByte | src/carver.rs:1016-1022 | Reading the second byte of a consumed pair again never changes the depth |
| Zip.ComputeZipLength | src/carver.rs:910-961 | For every window size the windowed scan gives the one-pass answer |
| Zip.ZipLengthMeaning | src/carver.rs:903-961 | The end of the first record in source order whose geometry describes the archive; failing that of the last ZIP64 candidate; else none |
| Zip.EmbeddedNeverChosen | src/carver.rs:942-951 | The record of an archive that starts later is never taken for this one's |
| Zip.EmbeddedNeverTheEnd | src/carver.rs:910-961 | The length is never that of such a record unless another record, which does count, ends at the same byte |
| Zip.MarkersApart | src/carver.rs:918-955 | Markers cannot overlap, so the scan sees each once |
| Zip.GradeRecord | src/carver.rs:936-952 | Tells owning records, ZIP64 candidates and others apart by the record's fields |
| ZipFormat.ArchiveIsCarved | src/carver.rs:903-961 | An archive anywhere in a source, of any members, central directory, comment and bytes behind it, laid out by an encoder, is carved to its own length when no record inside it describes an archive that starts there |
| ZipFormat.Zip64ArchiveIsCarved | src/carver.rs:942-957 | So is one with a ZIP64 sentinel in a field, when no record describes a plain archive and no marker follows |
| ZipFormat.OwnsIffDescribes | src/carver.rs:936-952 | A record owns the archive exactly by the bytes at 12, 16 and 20 behind its marker |
| FormatExamples.JpegExample | src/carver.rs:963-1023 | A picture with a thumbnail ends at its own end marker |
| FormatExamples.FooterExample | src/carver.rs:6933-6997 | A marker with three line ends behind it, of which two are allowed |
| FormatExamples.SizeFieldExample | src/carver.rs:5033-5081 | A 16-bit field in either byte order, with factor and addend |
| FormatExamples.SevenZipExample | src/carver.rs:607-622 | The length of an archive from the two fields of its header |
| Lengths.ComputeSizeFieldLength | src/carver.rs:5053-5081 | Field times factor plus addend in checked 64-bit arithmetic, positive and within the limit, or nothing; an error stop exactly where no buffer reaches the field |
| Lengths.ReadUint | src/carver.rs:5033-5045 | The shifting register holds the big- or little-endian value of the bytes modulo 2^64 |
| Lengths.ComputeSevenZipLength | src/carver.rs:607-622 | The declared size, a checked sum, is accepted if its wrapping end is within the limit |
| Lengths.PastLimitIff | src/carver.rs:613-620 | An archive is accepted with an end past its limit if and only if the declared size is a 64-bit number and its end wraps to one within the limit |
| Lengths.FileLength | src/carver.rs:513-567 | The dispatch computes the specified length for the modelled strategies, or stops over a field out of reach |
| Lengths.LengthInBounds | src/carver.rs:513-622 | Every modelled strategy gives a positive length within the type's cap and the scan, an archive's if and only if its end is a 64-bit number |
| Custom.AcceptedIsWellFormed | src/custom.rs:74-115 | An accepted spec has a magic, a usable extension, a capped size and a strategy with sensible parameters |
| Custom.AcceptedIff | src/custom.rs:74-215 | Exactly the entries are accepted that state a name, an extension of 1 to 16 safe characters, non-empty magic bytes, a size up to the cap, a whole secondary tag if any, and a length strategy with its parameters |
| Custom.AcceptedFields | src/custom.rs:74-215 | Every field of the signature that an accepted entry becomes is what stands under its own key, or its default |
| Custom.AcceptedCarvesInBounds | src/custom.rs:172-215 | A length that an accepted spec returns is in bounds on any source, in all three strategies |
| Widths.SpecIsAccepted | src/custom.rs:74-115 | Parsing bounds none of the 64-bit fields: any offsets are accepted |
| Widths.FarMagicStalls | src/carver.rs:179-222 | An accepted spec with which a chunk stalls exactly when more than 8386561 bytes are left |
| Widths.ScanWithFarMagic | src/carver.rs:161-326 | A scan with that spec goes round for ever on sources larger than that, and returns on all others |
| Widths.ShortOverlapMisses | src/carver.rs:173-232 | Two specs whose sum wraps to an overlap of one byte: the last position of a chunk has a hit that the buffer does not show |
| Widths.TaggedIsAccepted | src/custom.rs:74-115 | Both specs are accepted |
| Widths.ScanMissesHidden | src/carver.rs:161-348 | A source on which the engine with those two specs returns no row, for every chunk size, though the one pass has the file at the end of the first chunk |
| Widths.WrappedTagTrips | src/signatures.rs:3104-3107 | An accepted spec at whose magic the search stops with a range error, and nowhere else |
| Widths.FarFieldTrips | src/carver.rs:5064-5068 | An accepted spec whose length field is behind every buffer of up to 2^63 bytes |
| Widths.EndlessTrailingTakesNothing | src/carver.rs:6971-6977 | An accepted spec that allows any number of line ends and takes none of two |
| Widths.ModestFieldsFit | src/carver.rs:173-185 | Fields below a third of the largest buffer fit all sums, and their footers keep their promise |
| Widths.MagicAsMarker | src/carver.rs:6952-6965 | A spec whose magic is its marker is accepted and carves the magic alone |
| Custom.FromJson | src/custom.rs:161-167 | All specs in order, or the first error with its index |
| FormatExamples.HexTexts | src/custom.rs:236-270 | Two bytes in hex, and a hex text with its prefix |
| FormatExamples.DecimalTexts | src/carver.rs:366-395 | Numbers in decimal |
| Text.ParseInvertsToHex | src/custom.rs:236-270 | `parse_hex` inverts `to_hex` on every byte string |
| Text.ComputeParseHex | src/custom.rs:236-261 | The parser drops separators and one prefix, then reads pairs or names the first fault |
| Text.SeparatorsIgnored | src/custom.rs:236-246 | A separator anywhere makes no difference |
| Text.ComputeToHex | src/hash.rs:119-128 | Two lower-case digits a byte, in order |
| Text.DigestRoundTrip | src/carver.rs:499-511 | A digest written to a checkpoint is read back |
| Text.DigestTexts | src/carver.rs:499-511 | Exactly which texts read as a digest; such a text is the digest's own exactly if it has no plus sign and no upper-case digit |
| Text.OneDigestManyTexts | src/carver.rs:499-511 | Two pairs of different texts that read as one digest each |
| Text.ComputeParseHex32 | src/carver.rs:499-511 | The loop over the pairs reads all of them or rejects the text |
| Text.DecimalRoundTrip | src/carver.rs:366-395 | A 64-bit number written in decimal is read back |
| Signatures.SignatureIndex.constructor | src/signatures.rs:3033-3075 | The index buckets the signatures in table order, marks exactly the two-byte prefixes in use, and knows the leading zeros and the lookahead, whose sums wrap as the program's do |
| FormatExamples.MatchExample | src/signatures.rs:3101-3111 | Windows that match a magic with a tag, and that do not; the first of the table where two match |
| Signatures.SignatureIndex.MatchAt | src/signatures.rs:3089-3113 | Searching the index finds the first signature of the table that matches the window, or stops with a range error exactly when a search of the whole table does |
| Signatures.TripsIff | src/signatures.rs:3104-3107 | A signature stops the search exactly if its tag's end wraps, the window starts with its magic and reaches the wrapped end |
| Signatures.FittingTagsNeverTrip | src/signatures.rs:3104-3107 | While the ends of the tags stay below 2^64, nothing stops the search |
| Signatures.BucketTrips | src/signatures.rs:3101-3111 | The bucket of the first byte stops exactly when the table does |
| Signatures.BucketSuffices | src/signatures.rs:3101-3111 | The bucket of the first byte holds the first match of the table |
| Signatures.UnmarkedNeverMatches | src/signatures.rs:3095-3100 | A window with an unmarked prefix matches nothing |
| Signatures.LookaheadDecides | src/signatures.rs:3067-3072 | Bytes past the lookahead never change which signature matches |
| Signatures.ZeroSkipIsSafe | src/signatures.rs:3079-3087 | None of the skipped positions of a block of zeros can start a match |
| Words.ChBits | src/hash.rs:185 | Bit i of Ch is that of its second argument where the first has a one, else of the third |
| Words.MajBits | src/hash.rs:192 | Bit i of Maj is what at least two of its arguments have there |
| Words.SigmasByShifts | src/hash.rs:173-191 | The four sigmas are exclusive ors of words shifted and rotated by the standard's distances |
| Fips180Example.DigestOfAbc | src/hash.rs:238-251 | The digest of "abc" is that of the standard, byte by byte |
| Hash.Sha256.Update | src/hash.rs:56-60 | The message fed so far grows by the data, the invariant of buffer and blocks holding on |
| Hash.Sha256.Process | src/hash.rs:86-109 | Compressed blocks plus buffer grow by the data, with fewer than 64 bytes left in the buffer |
| Hash.Sha256.Finalize | src/hash.rs:62-84 | The digest of FIPS 180-4 of all that was fed; the padding leaves the buffer empty |
| Hash.Compress | src/hash.rs:166-226 | The unrolled block function equals the 64 shuffling iterations of section 6.2.2 |
| Hash.UnrolledRounds | src/hash.rs:180-215 | Eight rounds with shifted roles, eight times, are 64 rounds of the standard |
| Hash.RoundInto | src/hash.rs:183-200 | Writing two slots and renaming is one shuffling iteration |
| Hash.ExpandSchedule | src/hash.rs:167-178 | The message schedule, though summed in another order |
| Hash.DigestInPieces | src/hash.rs:254-265 | Any split into updates gives the digest of the whole |
| Hash.Digest | src/hash.rs:113-117 | The one-shot digest |
| Hash.HashingWriter.Write | src/hash.rs:153-159 | Exactly the bytes the inner writer accepted are hashed |
| Hash.HashingWriter.IntoParts | src/hash.rs:148-151 | The digest is that of what was written |
| Fips180.StandardPadding | src/hash.rs:62-84 | For messages under 2^64 bits the padding is that of section 5.1.1 |
| Ext4Indirect.MapIndirect | src/ext4.rs:883-912 | The first pointers that index arithmetic finds present, in logical order |
| Ext4Indirect.ReadIndirect | src/ext4.rs:914-944 | The leaves below an interior pointer are appended up to the wanted number |
| Ext4Indirect.LeavesArePresent | src/ext4.rs:914-944 | Recursive flattening agrees with the digits of the block number in base block size / 4 |
| Ext4Indirect.AllPointersArePresent | src/ext4.rs:883-912 | The same across the direct, single, double and triple tiers |
| Ext4Indirect.InStepIff | src/ext4.rs:883-944 | The returned map holds in slot k the pointer of logical block k, or 0 for a hole, for all k below n, if and only if no interior pointer these blocks need is zero or cut off, or file and map are nothing but holes from the first block that misses one |
| Ext4Indirect.ZeroIndirectPointerShiftsTheMap | src/ext4.rs:922-924 | A file whose logical block 12 is a hole and whose slot 12 holds the pointer of block 268 |
| Ext4Files.ReadSparseFile | src/ext4.rs:777-814 | Reading that file of 269 blocks gives in block 12 the content of block 268 |
| Ext4OnDisk.BlockBytes | src/ext4.rs:368-379 | Byte k of block b is byte offset + b * block size + k of the source, and a block is short only at its end |
| Ext4OnDisk.EntryInSource | src/ext4.rs:883-944 | The pointer of a logical block is that of the inode's bytes or one, two or three pointers of the source away from its last three, by the digits of the block number |
| Ext4OnDisk.MapIndirectExample | src/ext4.rs:883-944 | The map of a file of 13 blocks on a volume at 1 MiB, whose single indirect block points at block 7 |
| Ext4OnDisk.InodeFields | src/ext4.rs:990-1000 | Flag and block map by their bytes in the inode |
| Ext4OnDisk.ExtentTreeExample | src/ext4.rs:839-880 | A tree of two levels on a volume at 1 MiB, byte by byte, with an unwritten extent and a physical block above 2^32 |
| Ext4OnDisk.MapExtentsExample | src/ext4.rs:816-880 | The block map it gives |
| Ext4Extents.CollectExtents | src/ext4.rs:839-880 | The recursion inserts the leaf extents in order and ends on cyclic trees |
| Ext4Extents.SurvivorIsLast | src/ext4.rs:839-880 | Of extents with one start the last survives |
| Ext4Extents.TranslationIsUnique | src/ext4.rs:816-837 | Only one translation of a block meets the description |
| Ext4Extents.MapExtents | src/ext4.rs:816-837 | Each logical block is translated by the surviving extent with the greatest start that covers it, or is a hole |
| Ext4Extents.LaterStartDecides | src/ext4.rs:822-834 | An extent that starts later overrides the earlier ones where it reaches |
| Ext4Files.ReadFileData | src/ext4.rs:777-814 | Every byte of the result is the mapped source byte, or zero in a hole; it is short only where the map or the source ends; impossible sizes give nothing |
| Ext4Files.FileDataIsUnique | src/ext4.rs:777-814 | No other result meets that description |
| Ext4Files.MapBlocks | src/ext4.rs:816-837 | The block map of either kind of inode |
| Ext4Journal.ParseJournalTags | src/ext4.rs:1043-1092 | The loop reads tag after tag in any layout, up to the last tag, the block's end or the limit |
| Ext4Journal.TagsRoundTrip | src/ext4.rs:1043-1092 | Encoding any block numbers in any of the three layouts, with any SAME_UUID choices and the last tag marked, then parsing, gives the list back |
| Ext4Journal.TagIsRead | src/ext4.rs:1048-1083 | One encoded tag is read back wherever it stands |
| Ext4OnDisk.NarrowTags | src/ext4.rs:1043-1092 | Tags of 8 bytes, the first with its UUID, and one behind the last that is not read |
| Ext4OnDisk.WideTags | src/ext4.rs:1043-1092 | Tags of 12 bytes, the first above 2^32 and sharing its UUID |
| Ext4OnDisk.ChecksumTags | src/ext4.rs:1043-1092 | Tags of 16 bytes |
| Ext4OnDisk.JournalHeader | src/ext4.rs:585-600 | Length, start and the two flags of a journal superblock by their bytes |
| Ext4OnDisk.JournalExample | src/ext4.rs:575-634 | A journal of three blocks on a volume at 1 MiB, byte by byte, and the one copy in it |
| Ext4JournalIndex.BuildJournalIndex | src/ext4.rs:575-634 | The index holds exactly the blocks with a copy, each with where its copies stand, in journal order |
| Ext4JournalIndex.IndexedCopies | src/ext4.rs:600-633 | A copy is recorded if and only if a header names it; positions ascend; no position serves two blocks; none was also read as a header |
| Ext4JournalIndex.CopiesAscend | src/ext4.rs:620-631 | All recorded positions ascend strictly inside the journal |
| Ext4JournalIndex.CopyIffNamed | src/ext4.rs:609-632 | What is recorded is what the tags of the headers that are read name |
| Ext4JournalIndex.DataIsNoHeader | src/ext4.rs:631 | Journaled data is never read as a header |
| Ext4Walk.Walk | src/ext4.rs:645-716 | The walk ends on any graph; each deleted file that an expanded directory names is kept with its size and the path of its first sighting, and nothing else; each has no links or a time of deletion |
| Ext4Walk.ExpandedDirectories | src/ext4.rs:651-665 | No directory is expanded twice; each is named by its path, without a circle, at most 64 deep |
| Ext4Walk.CompleteIff | src/ext4.rs:699-706 | Every reachable readable directory is expanded if and only if no entry of a directory expanded at depth 64 is left behind |
| Ext4Walk.TreeCompleteIff | src/ext4.rs:699-706 | Where each directory is named by one entry, the walk is complete if and only if no readable directory is more than 64 steps down |
| Ext4Walk.CompleteNeedsNear | src/ext4.rs:699-706 | On any graph a complete walk needs, for every reachable readable directory, a way of at most 64 steps without a repeat |
| Ext4Walk.ShallowIsComplete | src/ext4.rs:651-706 | On any graph it is enough that no way without a repeat to a readable directory is longer than 64 steps |
| Ext4WalkLimit.ShortWayMissed | src/ext4.rs:654-707 | A directory two steps below the root that is not expanded |
| Ext4Walk.FoundIsGenuine | src/ext4.rs:686-714 | Every file found is a regular one without links or with a time of deletion, has its inode's size, and its path leads to it |
| Ext4Walk.FoundIffNamed | src/ext4.rs:636-714 | Where the walk is complete, the files found are exactly the regular ones without links or with a time of deletion that reachable directories list |
| Ext4Walk.StepMeans | src/ext4.rs:686-706 | A step leads from a directory to one that an entry other than its two links names |
| Ext4Walk.WalkSmall | src/ext4.rs:697-713 | Of a root with a file without links, a live file and a file with a time of deletion, the first and the third are found |
| Ext4Walk.Retain | src/ext4.rs:683-684 | Repeated entries are dropped, the first one kept |
| FreeRuns.ExtFreeExtents | src/ext4.rs:416-451 | The ranges of an ext volume are the maximal runs of its free blocks, across group boundaries |
| FreeRuns.ExfatFreeExtents | src/exfat.rs:282-332 | The same for the clusters of an exFAT volume; of 2^32 - 1 clusters the last, whose number wraps, is reported as the first |
| FreeRuns.ExtByteFreeIff | src/ext4.rs:416-451 | A byte lies in a range if and only if its block has a bitmap that calls it free |
| Ext4OnDisk.FreeByteInSource | src/ext4.rs:416-451 | A byte of the source lies in a range if and only if its block of the volume is a data block and its bit, in the byte of the source where the bitmap has it, is clear |
| ExfatOnDisk.FreeByteInSource | src/exfat.rs:282-332 | The same of clusters, below 2^32 - 1 of them |
| ExfatOnDisk.ClusterInSource | src/exfat.rs:134-143 | Where cluster 2 + i starts in the source |
| ExfatOnDisk.NextInSource | src/exfat.rs:146-164 | The four bytes of the source that name the next cluster |
| ExfatOnDisk.PlacesInVolume | src/exfat.rs:134-155 | These places on a volume at 1 MiB |
| FreeRuns.ExfatByteFreeIff | src/exfat.rs:282-332 | A byte lies in a range if and only if its cluster is free, below 2^32 - 1 clusters |
| FreeRuns.LargestVolumeIff | src/exfat.rs:316-327 | With 2^32 - 1 clusters that holds of all bytes if and only if the last cluster is in use |
| FreeRuns.LargestVolumeMisreported | src/exfat.rs:316-327 | A volume and bitmap on which the one free cluster is in no range and the first cluster, in use, is in one |
| FreeRuns.ParsedIff | src/exfat.rs:93-119 | A boot sector whose shifts are accepted gives clusters of at most 32 MiB and offsets below 2^64 if the sum of the shifts is at most 25, and a cluster size of 0 if it wrapped |
| FreeRuns.SpansAreTheFreeSet | src/ext4.rs:436-448 | Merging yields sorted, disjoint, non-adjacent runs that cover a unit if and only if it is free, with the right total |
| FreeRuns.FreeSetDecidesSpans | src/ext4.rs:416-451 | There is only one such list of runs |
| FreeRuns.TotalOfExtents | src/ext4.rs:436-448 | The byte lengths add up to the unit size times the number of free units |
| FreeRuns.OffsetIsExact | src/exfat.rs:134-143 | The saturating offset arithmetic never saturates inside a parsed volume |
| FreeRuns.ClusterCoveredIffFree | src/exfat.rs:271-280 | A range covers a cluster if and only if the bitmap holds its bit and the bit is clear |
| ExfatEntries.ParseEntrySets | src/exfat.rs:689-760 | The parsing loop takes exactly the complete sets, in order, those without a name left out |
| ExfatOnDisk.DirectoryExample | src/exfat.rs:689-760 | A directory of a live folder and a deleted file, byte by byte, and the two items |
| ExfatEntries.EntrySetsRoundTrip | src/exfat.rs:787-816 | Any list of items with 1 to 255 units in the name, live or deleted, is parsed back from its sets in order; the times, which the encoder there leaves zero, may be any |
| ExfatEntries.SetsAreRead | src/exfat.rs:689-760 | What follows the sets is parsed as if it stood alone |
| ExfatEntries.CutDropsTheLast | src/exfat.rs:709-713 | A directory cut anywhere inside its last set loses that item alone |
| ExfatEntries.NameIsRead | src/exfat.rs:730-741 | A name of any length is read back from its entries once the fill is cut off |
| ExfatChain.CopyChain | src/exfat.rs:524-550 | The copy follows the chain up to the first cluster met before, and ends on any table |
| ExfatChain.ChainFollows | src/exfat.rs:146-164 | A chain runs along the table through different valid clusters and stops only where it has to |
| ExfatChain.CopyFollowsChain | src/exfat.rs:524-550 | Every byte j of the copy is byte j mod size of cluster j div size of the chain if and only if no cluster that falls short of what it is read for is followed by one that starts inside the source |
| ExfatChain.WholeChainAgrees | src/exfat.rs:524-550 | Where the source holds every cluster of the chain whole, that is so |
| ExfatChain.CutCopyIsKeptAndWrong | src/exfat.rs:391-412 | A truncated source on which all 1000 bytes asked for are copied and kept, and byte 488 belongs to another place |
| ExfatChain.ChainSufficesIff | src/exfat.rs:391-412 | On any chain the copy is as long as the file or as what its clusters hold up to the first one behind the source, and is kept instead of the fallback exactly when they hold enough |
| Corpus.Payload | examples/corpus_tool.rs:181-202 | The sectors of stamps and of the filler that the generator draws, cut to length, the filler clear of the forbidden bytes |
| FormatExamples.SectorExample | examples/corpus_tool.rs:173-202 | The stamps of a sector in full |
| Corpus.PayloadIsDetermined | examples/corpus_tool.rs:173-202 | Seed, length and forbidden bytes decide the payload |
| Corpus.SectorsDiffer | examples/corpus_tool.rs:173-202 | No two sectors of a file are equal |
| Corpus.MakeJpeg | examples/corpus_tool.rs:222-236 | A generated JPEG has the wanted size and no marker between its first and its last |
| Corpus.GeneratedJpegCarvesExactly | examples/corpus_tool.rs:222-236 | Anywhere in any source a generated JPEG is carved to exactly its own length |
| EndToEnd.EligibleHitIsRecorded | src/carver.rs:254-318 | A hit outside the claimed regions with an acceptable length is in the final manifest, unless dropped as a duplicate |
| EndToEnd.PlantedJpegComesBack | tests/carve_chunk_boundary_test.rs:157-196 | A generated JPEG planted outside other files is in the final rows of the pass with its own offset, length and SHA-256 |
| EndToEnd.CarvePlanted | tests/carve_chunk_boundary_test.rs:157-196 | It is among the rows that the engine returns, for every chunk size that the table's sums fit |
| FarArchive.RowsOverlap | src/carver.rs:298-316 | A source with two archives on which the one pass lists the second one inside the first, its books in order and its regions not disjoint |
| FarArchive.ScanOverlaps | src/carver.rs:161-348 | The engine with its default options returns these overlapping rows, whatever its chunk, window and buffer sizes |

## Left out

- Device and file input and output, directories created and names changed on collision, file times, progress reports
  and error returns of reads: the source is a value that can always be read. Row names are those before collision
  handling.
- The other length strategies of `file_length`, the header validators and the extensions refined from content are
  arbitrary functions given to the run, the lengths any 64-bit numbers, so that the theorems hold for any of them. The
  ELF and Outlook arms, whose declared ends can wrap as the archive's can, are among them.
- Machine width where no run reaches it: `file_start + max_size` on a source of less than 2^63 bytes, the tallies of
  runs that start over or from a checkpoint some run wrote, the 32-bit nesting depth in a JPEG of at most 50 MiB.
  Checked, wrapping and saturating arithmetic on values from the disk and from custom carvers is modelled as written,
  except in the fixed and size-field arms, whose saturating additions cannot bind there, and on exFAT volumes whose two
  shifts wrap (`FreeRuns.ParsedIff`).
- Carver.CarveSeeded: a saved text that no run wrote can give a tally a number near 2^64, which the next file then
  wraps in the program and not in the model.
- exFAT volumes whose two shifts wrap: their cluster size is 0, the root directory reads as empty, and neither the free
  ranges nor a copy is ever computed, so that no statement about them is made.
- Memory: positions in memory and on the source both have 64 bits; the buffers for windows and copies are granted.
- The table of about 150 signatures, except the JPEG and 7-Zip entries. The prefix bits are a table of flags, not
  packed into words.
- `jpeg_length` and `zip_length` called with a limit past the source; every caller clamps it first, as the model
  requires.
- Texts are sequences of characters, file names of code units: no UTF-8 or UTF-16 decoding, no sanitising of names.
  JSON numbers are given with their conversion to an unsigned integer.
- Inode and directory entry parsing of ext volumes, and where `journaled_inode` finds a directory's old inode: the walk
  is given the inodes and, for each readable directory, its entries, live ones before journaled copies.
- exFAT: the walk over directories (the same shape as that of ext), the search for the bitmap in the root directory,
  the copy that skips allocated clusters, and contiguous copies.
- Resume: a scan stopped by the file limit is inside a chunk, and a resumed run is given the seed of the interrupted
  one; `bytes_scanned` is the position relative to the range and is not part of the comparison.
- Detection, imaging, the other file systems, command line and reports are not part of this model.
