# Verification models of the harder parts of ba6

Dafny models of seven parts of the toolbox, with proofs of what they promise. `dafny verify dfyconfig.toml`
checks everything.

- **bzip2 writer** (`Bzip2*.dfy`, `Bits.dfy`). Every stage is a specification function or relation, a loop proved
  against it, and an inverse: run-length code, sorted rotations by prefix doubling with the early exit,
  move-to-front with bijective zero runs, complete canonical code, bit packer. `Bzip2Files.Decode` is a reference
  decoder of the file format (general in tables, selectors and level), and the `Writer` class is proved to produce
  the one file that decodes to the bytes written, however they were split over calls. `Bzip2Layout` spells that file
  bit by bit, with both checksums, and the decoder takes a stated checksum exactly when it is the right one.
- **Line diff** (`Diff*.dfy`). The table holds lengths of longest common subsequences, the walk emits an optimal
  script, changes are grouped and merged into hunks, and `DiffPatch.Apply` is an independent reader of hunks that
  rebuilds the second file from them.
- **Glob matching** (`Glob*.dfy`, `TarMatch.dfy`). The language of a pattern is defined by division of the name into
  pieces. The matcher that goes back to its last star only, and the recursive matcher, are both proved to decide it.
  `GlobLaws` says what each wildcard and each kind of set takes.
- **Partition tables** (`Gpt*.dfy`, `Dos*.dfy`, `Logicals.dfy`, `EbrChain.dfy`, over `Extents.dfy`, `ByteBuffers.dfy`
  and `Disks.dfy`). Sessions are classes whose invariant every action keeps; free space tiles the disk; the GPT pair
  and the boot record are read back as written, and the chain of extended boot records under an exact condition; and
  both ways of writing are followed through every crash point of a disk that may lose any subset of its unsynced
  sector writes. `GptLayout`, `DosTable.MbrLayout` and `EbrChain.ChainLayout` give the bytes at each offset, in terms
  of the size of the disk or of the entries alone.
- **Service supervisor** (`Supervisor.dfy`). Services are heap objects shared by two maps. Starting, reaping and
  rereading the table keep both maps in agreement over all runs, whatever the kernel and the clock do.
- **Domain names** (`DnsNames.dfy`). Encoding and decoding with compression pointers.

`Sorting.dfy`, `Outcomes.dfy` and `Prompts.dfy` hold what `sort.Slice` promises, an option type, and answers to prompts.

Some promises of the program are false on part of their inputs. The model keeps the code as it is, states when the
promise holds, and gives a concrete input where it does not:

- unified hunks rebuild the second file exactly when lines that compare equal also read the same
  (`DiffPatch.HunksRebuild`; `DiffPatch.FoldingLoses` for an input); the fallback for huge files carries misplaced
  positions (`DiffScript.ReplacementMisplaced`, `DiffScript.LongFileMisplaced`), so its patch is always refused
  (`DiffPatch.ReplacementRefused`);
- the two pattern matchers read a pattern alike exactly when its sets are plain (`TarMatch.SameReading`), and then
  differ on the empty pattern with the empty name only (`TarMatch.Agreement`); `TarMatch.SetsDiffer` and
  `TarMatch.EscapesDiffer` are inputs on which they differ;
- a list of logical partitions is read back exactly when the disk was prepared for it (`EbrChain.ChainReadBack`):
  one that starts at the front of its container up to 256 entries (`EbrChain.ChainRoundTrip`, `EbrChain.TooManyLost`).
  Deleting the first one, or all of them, is undone by the next reading (`EbrChain.DeletedReturn`,
  `EbrChain.DeletionUndone`);
- writing the chain before the boot record keeps a crash from leaving a boot record that points at a part of it,
  except when the old boot record pointed there (`DosWrite.DanglesExactly`, `DosWrite.CrashDangles`);
- deleting a logical partition can leave the selection beyond the rows (`DosSession.Session.DeleteLogical` says
  exactly when, `DosActions.SelectionCanBeLost` gives a table);
- a pointer to the root behind labels decodes with a second dot (`DnsNames.PointerReads`,
  `DnsNames.RootPointerReads`).

A GPT is read back exactly when its empty slots hold nothing (`GptCodec.StateRoundTrip`). That is no restriction on a
session: what is read has empty slots that hold nothing (`GptCodec.ReadIsSound`), and every action keeps them so
(`GptSession.Session.Valid`).

## Model

| member | source | states |
|---|---|---|
| Bzip2BitWriter.BitWriter.WriteBits | bzip2_writer.go:127-146 | Emitted bytes and the fewer than eight pending bits, read most significant bit first, grow by exactly the low bits of the value, for every count up to 57 (the source passes at most 32); the 64-bit accumulator never overflows |
| Bzip2BitWriter.BitWriter.Flush | bzip2_writer.go:148-159 | The pending bits are completed with fewer than eight zero bits, and nothing else is added |
| Bzip2BitWriter.PadsToByte | bzip2_writer.go:148-159 | A value shifted up to a byte reads as its field followed by zeros |
| Bzip2BitWriter.TopByte | bzip2_writer.go:127-146 | The byte taken from the top of the accumulator and what stays below it spell the same bits |
| Bzip2Rle.RunLengthEncode | bzip2_writer.go:161-179 | The loop computes the run-length code |
| Bzip2Rle.UnRleRle | bzip2_writer.go:161-179 | Decoding the run-length code gives the data back, for every input |
| Bzip2Rle.RleGrowth | bzip2_writer.go:161-179 | The code is at most five quarters of the data |
| Bzip2Rle.RunCoded | bzip2_writer.go:161-179 | A run of n equal bytes is coded as n bytes below four, and otherwise as four and a count of at most 255 more; a run ends after 259 bytes |
| Bzip2Blocks.BlockFits | bzip2_writer.go:87-90 | A block of at most 80,000 bytes stays within 100,000 after run-length coding, so the size check never fails |
| Bzip2Rotations.RotationOrder | bzip2_writer.go:181-227 | Comparing rotations lexicographically is comparing them at the first position where they differ |
| Bzip2Rotations.WrapIsRemainder | bzip2_writer.go:181-237 | Stepping over the end of the block by a subtraction is the remainder that the source takes |
| Bzip2Rotations.StableForever | bzip2_writer.go:203-227 | Rotations that a doubling step does not separate are equal for ever, periodic blocks included |
| Bzip2Bwt.RowsCorrect | bzip2_writer.go:181-237 | The sorted rotations: a permutation of the start positions in lexicographic order |
| Bzip2Bwt.RowsUnique | bzip2_writer.go:181-237 | A permutation whose rotations are in order, equal ones by position as the comparisons of the source have them, is the list of rows |
| Bzip2Unsort.ColumnUnique | bzip2_writer.go:181-237 | Any permutation in which no rotation comes after a larger one, however equal rotations of a periodic block stand, has the same last column |
| Bzip2Bwt.PairCompares | bzip2_writer.go:204-213 | Ranks that agree with prefixes of length k make pairs of ranks that agree with prefixes of length 2k |
| Bzip2Bwt.Refined | bzip2_writer.go:203-227 | One sort and renumbering keeps: equal ranks exactly for equal prefixes, and rank order is prefix order, with the length doubled |
| Bzip2Bwt.UnsplitDecides | bzip2_writer.go:222-224 | When the number of classes stops growing, the prefixes compared so far decide the order of whole rotations |
| Bzip2Bwt.DoublingDone | bzip2_writer.go:222-224 | The early exit leaves positions whose column is that of the sorted rotations |
| Bzip2Bwt.DoublingGoesOn | bzip2_writer.go:203-227 | A further round keeps the doubling invariant at twice the step, and never has fewer classes |
| Bzip2Bwt.DoublingDecided | bzip2_writer.go:203-227 | Running out of length, or one class per position, also leaves sorted rotations |
| Bzip2BlockSort.SortPositions | bzip2_writer.go:189-213 | The positions become an ordered permutation by key, in place |
| Bzip2BlockSort.FirstClasses | bzip2_writer.go:195-202 | Ranks are numbered by first byte |
| Bzip2BlockSort.PairClasses | bzip2_writer.go:214-221 | Ranks are renumbered by pairs of ranks |
| Bzip2BlockSort.DoublePrefixes | bzip2_writer.go:203-227 | The doubling loop ends with the rotations in order |
| Bzip2BlockSort.ReadColumn | bzip2_writer.go:228-236 | Last column and the row of the unrotated block are read off the positions |
| Bzip2BlockSort.BlockSort | bzip2_writer.go:181-237 | For every non-empty block: the last column of its sorted rotations and the index of the row that is the block |
| Bzip2Unsort.TurnedRow | bzip2_writer.go:181-237 | Stepping from a row of the sorted rotations to the one turned by a byte is a stable sort of the last column |
| Bzip2Unsort.UnsortSort | bzip2_writer.go:181-237 | The standard inverse walk over the last column and index gives the block back, for every block |
| Bzip2Mtf.UsedAscending | bzip2_writer.go:239-252 | The used bytes are listed in ascending order, each once |
| Bzip2Mtf.ZeroRunMeans | bzip2_writer.go:279-291 | The digits d of a run sum (d + 1) * 2^i to its length |
| Bzip2Mtf.EmitZeroRun | bzip2_writer.go:279-291 | The loop emits those digits and ends |
| Bzip2Mtf.SymbolsShape | bzip2_writer.go:239-277 | The end mark comes last and is no other symbol, and there is at most one symbol more than bytes |
| Bzip2Mtf.ExpandSymbols | bzip2_writer.go:239-277 | Undoing runs and moves, given the used bytes, gives the data back |
| Bzip2Mtf.MoveToFrontEncode | bzip2_writer.go:239-277 | The loop with its shifted list computes the symbols and the used bytes |
| Bzip2Codes.LimitIsKraft | bzip2_writer.go:356-375 | The code after the last one of a length is the Kraft sum scaled to that length |
| Bzip2Codes.CodeFits | bzip2_writer.go:356-375 | When Kraft's inequality holds every canonical code fits its length |
| Bzip2Codes.PrefixFree | bzip2_writer.go:356-375 | No canonical code is a prefix of another |
| Bzip2Codes.DecodeCode | bzip2_writer.go:356-375 | A code is decoded to its symbol, whatever bits follow |
| Bzip2FixedCodes.LengthsComplete | bzip2_writer.go:321-336 | For every alphabet of two symbols or more the fixed lengths satisfy Kraft with equality |
| Bzip2FixedCodes.FixedCodeLengths | bzip2_writer.go:321-336 | The loops compute those lengths, each below 256 |
| Bzip2FixedCodes.CanonicalCodes | bzip2_writer.go:356-375 | The loops over lengths and symbols hand out the canonical codes in 32 bits |
| Bzip2FixedCodes.CodesExact | bzip2_writer.go:321-375 | For the fixed lengths no 32-bit wrap-around occurs |
| Bzip2Format.ReadInUseBits | bzip2_writer.go:293-319 | The two-level map of used bytes is read back |
| Bzip2Format.ReadLengthsBits | bzip2_writer.go:338-354 | Delta-coded lengths are read back |
| Bzip2FieldWriter.WriteInUse | bzip2_writer.go:293-319 | The writer emits exactly that map |
| Bzip2FieldWriter.WriteCodeLengths | bzip2_writer.go:338-354 | The writer emits exactly the deltas of the lengths |
| Bzip2FieldWriter.WriteCoding | bzip2_writer.go:99-115 | Groups, selectors, both tables and the symbols are emitted as exactly the bits that are specified |
| Bzip2Crc.ComputeCrc | bzip2_writer.go:377-401 | The loop over bytes, with the table that MakeTable fills, leaves the complement of a register that takes the data bit by bit |
| Bzip2Crc.LookupSteps | bzip2_writer.go:377-401 | For every register and byte, the shift by a byte and one table entry do the work of eight single steps of the register |
| Bzip2Crc.StepsXor | bzip2_writer.go:387-401 | The register is linear over exclusive or, which is why a table of bytes alone is enough |
| Bzip2Crc.MakeTable | bzip2_writer.go:387-401 | Entry v of the table is what eight single steps make of the byte v |
| Bzip2Crc.CombineTurns | bzip2_writer.go:84-85 | Combining turns the checksum so far left by one bit, as the shifts of the source do, and adds the next by exclusive or |
| Bzip2Crc.CheckValue | bzip2_writer.go:377-401 | The checksum of the nine digits `123456789` is 0xfc891918 |
| Bzip2Coding.SymbolsCodable | bzip2_writer.go:99-115 | Every symbol of a column has a code in the alphabet used for it |
| Bzip2Coding.ReadCodingBits | bzip2_writer.go:99-115 | Tables, selectors and symbols are read back, whatever follows |
| Bzip2Coding.ReadColumnBits | bzip2_writer.go:98-115 | Used bytes, tables and symbols are read back to the column |
| Bzip2Blocks.ReadBodyBits | bzip2_writer.go:79-118 | A reference decoder gives the raw block back from its bits, checking its checksum, for every block of 1 to 80,000 bytes |
| Bzip2Blocks.ReadBodyStated | bzip2_writer.go:79-97 | A block that states any checksum is taken by the decoder exactly when it is that of its raw bytes |
| Bzip2Blocks.ReadBlocksBits | bzip2_writer.go:62-118 | The blocks and the combined checksum of a stream are read back |
| Bzip2Blocks.ReadBlocksStated | bzip2_writer.go:62-77 | A stream that states any checksum is taken by the decoder exactly when it is the combined one of its blocks |
| Bzip2Files.ChunksCover | bzip2_writer.go:39-60 | A stream's blocks are its data cut at 80,000 bytes |
| Bzip2Files.RoundTrip | bzip2_writer.go:29-118 | Decoding a file gives exactly the data it was made of |
| Bzip2Files.FileUnique | bzip2_writer.go:39-77 | The file depends only on the data |
| Bzip2Layout.FileLayout | bzip2_writer.go:39-77 | Bit by bit: `BZh1`, one block for each 80,000 bytes, the mark 0x177245385090, and in 32 bits the exclusive or of the block checksums, each turned left once for every block behind it |
| Bzip2Layout.BlockLayout | bzip2_writer.go:79-118 | Bit by bit: the mark 0x314159265359, the checksum of the raw block, a zero bit, 24 bits of origin, the coded column |
| Bzip2Layout.ColumnLayout | bzip2_writer.go:98-115 | Bit by bit: used bytes, two tables, one selector for each 50 symbols or part of 50, the two tables, the symbols |
| Bzip2Writer.EmitBlock | bzip2_writer.go:91-115 | The writer emits exactly the bits of the block |
| Bzip2Writer.ChunksAre | bzip2_writer.go:39-60 | Committing full blocks as they fill cuts the data as one pass over all of it would |
| Bzip2Writer.Writer.WriteBlock | bzip2_writer.go:79-118 | The pending block is emitted, the combined checksum turned left by one bit and the checksum of the block added, and the block emptied; no failure |
| Bzip2Writer.Writer.Write | bzip2_writer.go:39-60 | Any split of the data over calls feeds the same stream; nothing is accepted after closing |
| Bzip2Writer.Writer.Close | bzip2_writer.go:62-77 | The output is the file of everything written, whose bits and checksum `Bzip2Layout.FileLayout` spells; closing again changes nothing |
| DiffScript.LcsBounds | core_extra.go:2006-2020 | No common subsequence of two suffixes is longer than the table's recurrence says |
| DiffScript.LcsReached | core_extra.go:2006-2020 | Some common subsequence is that long |
| DiffScript.FillTable | core_extra.go:2006-2020 | Every cell holds the length of a longest common subsequence of the two suffixes |
| DiffScript.WalkTable | core_extra.go:2021-2038 | The walk emits a script of both files, with correct positions, deletions first, and as many kept lines as the longest common subsequence |
| DiffScript.ScriptSpells | core_extra.go:2021-2038 | A script's operations spell both files in order |
| DiffScript.KeepsBound | core_extra.go:2021-2038 | No script of the files keeps more lines than the longest common subsequence has |
| DiffScript.Optimal | core_extra.go:2021-2038 | No script of the same files has fewer insertions and deletions |
| DiffScript.Align | core_extra.go:1986-2039 | Both branches spell both files, and the table is used exactly up to 4,000,000 cells. There every kept pair of lines normalises alike, and no strictly ascending matching of lines that normalise alike has more pairs than the script keeps |
| DiffScript.BestKeepsMost | core_extra.go:1998-2038 | The script of a longest common subsequence of normalised lines keeps as many lines as any matching of the files, stated on indices and the normaliser alone |
| DiffScript.ReplacementMisplaced | core_extra.go:1988-1997 | The fallback for huge files spells both files too, but its deletions carry positions that are not theirs |
| DiffScript.LongFileMisplaced | core_extra.go:1988-1997 | A concrete case: one line against one more than the limit of the table |
| DiffHunks.GroupChanges | core_extra.go:2051-2075 | The maximal runs of changed operations, with the line ranges they span in both files |
| DiffHunks.MergeChanges | core_extra.go:2135-2141 | Changes are merged exactly while at most six unchanged lines lie between them |
| DiffHunks.HunkEdges | core_extra.go:2134-2156 | The line numbers of a hunk select one contiguous block of operations: its changes and up to three lines on each side |
| DiffHunks.SelectOps | core_extra.go:2146-2176 | The body loop collects that block, with exact line counts and the right start in the second file |
| DiffHunks.UnifiedHunks | core_extra.go:2128-2182 | The hunks are those blocks, one for each group of merged changes, in order |
| DiffPatch.RangesApart | core_extra.go:2131-2182 | Hunks are in order and do not touch |
| DiffHunks.HunkSpan | core_extra.go:2131-2156 | A hunk shows up to three unchanged lines around its changes, two changes with at most six unchanged lines between them share one, and with seven they do not |
| DiffPatch.ChangeInHunk | core_extra.go:2131-2182 | Every changed operation is in exactly one hunk |
| DiffPatch.LineCounts | core_extra.go:2146-2176 | The counts of a hunk are the numbers of lines it shows of each file |
| DiffPatch.ApplyRest | core_extra.go:2131-2182 | From any position between hunks, applying the rest of them gives the rest of the script |
| DiffPatch.HunksRebuild | core_extra.go:2128-2182 | Applying the hunks to the first file, with every number and old line checked, gives the second exactly when lines that compare equal also read the same |
| DiffPatch.FoldingLoses | core_extra.go:2128-2182 | A concrete loss: with folding, `A` against `a` prints no hunk, and the first file stays as it is |
| DiffPatch.ReplacementHunk | core_extra.go:1988-1997 | The printing loop makes one hunk of the fallback for huge files: all old lines, all new lines, and the end of the second file as its start there |
| DiffPatch.ReplacementRefused | core_extra.go:1988-1997 | Applying that hunk is refused |
| DiffPatch.DiffAndPatch | core_extra.go:1986-2182 | Where lines that normalise alike read the same, as without options, aligning, printing and applying turns a file into the other, for all files that fit the table; for larger ones the printed patch is refused |
| GlobLanguage.AcceptsIsLanguage | find.go:1031-1087 | A name is in the language of a pattern, as a division into pieces, exactly when it is accepted element by element |
| GlobMatch.GlobBracket | find.go:1091-1127 | Whether a set is closed, where it ends, and whether it holds the character, all as the set's members say |
| GlobMatch.StarStep | find.go:1040-1043 | A new star makes every other choice for the older one redundant |
| GlobMatch.BackStep | find.go:1075-1081 | Giving the last star one more character loses no match |
| GlobMatch.GlobMatch | find.go:1034-1087 | The loop ends and answers exactly whether the name is in the language of the pattern |
| GlobLaws.StarLaw | find.go:1040-1043 | `*` takes any beginning of a name, the empty one included |
| GlobLaws.AnyLaw | find.go:1045-1048 | `?` takes one character, whatever it is |
| GlobLaws.OneLaw | find.go:1059-1073 | Any other character takes itself, and so does any character behind a backslash |
| GlobLaws.ComplementLaw | find.go:1091-1110 | `[!` and `[^` before the text of a set take exactly the one-character names that `[` before it does not take |
| GlobLaws.RangeLaw | find.go:1111-1117 | `[x-y]` takes exactly the one-character names from x to y |
| GlobLaws.ListLaw | find.go:1091-1127 | A set of plain characters takes exactly the one-character names in it |
| TarMatch.FindInSet | archive.go:131-144 | The set scan finds exactly the members of the set |
| TarMatch.TarPatternMatch | archive.go:92-163 | The recursive matcher answers whether the name is in the language, and false for the empty pattern |
| TarMatch.SameReading | archive.go:92-163 | Both matchers read a pattern as the same elements if and only if its sets are plain: unclosed, or not empty and without a member that begins with a backslash |
| TarMatch.NoSetsPlain | archive.go:92-163 | A pattern without a bracket has plain sets only |
| TarMatch.Agreement | archive.go:92-163 | On patterns whose sets are plain both matchers agree on every input but one: the empty pattern with the empty name |
| TarMatch.SetsDiffer | archive.go:114-147 | A concrete difference: a set that begins with a closing bracket |
| TarMatch.EscapesDiffer | archive.go:114-147 | A concrete difference: a set with a backslash |
| TarMatch.QuotedMatchesItself | find.go:1061-1066 | A name with every character behind a backslash matches itself and nothing else |
| Extents.NeighboursDecide | cfdisk_gpt_linux.go:287-293 | Comparing neighbours in any ordered permutation decides whether any two ranges overlap |
| Extents.CheckApart | cfdisk_linux.go:1253-1258 | The neighbour loop answers whether all ranges are apart |
| Extents.FreeRegions | cfdisk_linux.go:1198-1222 | The cursor loop over sorted ranges, overlapping or not, computes the gaps that the next two rows are about |
| Extents.FreeHoldsUnused | cfdisk_linux.go:1198-1222 | For any ranges, every unused sector lies in exactly one free region, and no sector in two |
| Extents.FreeTiles | cfdisk_linux.go:1198-1222 | Used and free ranges cover every sector of the bounds exactly once, and nothing else, if and only if no two used ones overlap |
| Extents.ChainedUnique | cfdisk_linux.go:1209-1209 | Ranges that follow one another have only one order by start, so the sort's choice among equals never matters |
| Extents.FitsInGap | cfdisk_linux.go:1173-1196 | A range inside a free region is apart from everything in use |
| Extents.AlignFacts | cfdisk_linux.go:1180-1187 | The alignment gives the next multiple of 2048, or zero when the 64-bit sum wraps |
| Extents.Suggest | cfdisk_linux.go:1173-1196 | The loop computes the first of the largest aligned candidates |
| Extents.BestIsLargest | cfdisk_linux.go:1173-1196 | That candidate lies apart from everything in use; no range at an aligned sector that is apart from everything in use, wherever it lies, is larger; it is aligned unless it holds no aligned sector, and empty exactly when nothing is free |
| GptTable.GeometryFits | cfdisk_gpt_linux.go:68-83 | A disk has room exactly from 68 sectors on, and then the five areas and the usable range fill it in order without overlap |
| GptTable.CheckSlots | cfdisk_gpt_linux.go:269-286 | Every used slot has its own identity and lies in the usable range |
| GptTable.ValidateTable | cfdisk_gpt_linux.go:261-294 | Validation answers exactly: sound geometry, sound slots, distinct identities, no overlap |
| GptTable.TableFreeRegions | cfdisk_gpt_linux.go:296-320 | Partitions and free regions cover each usable sector exactly once |
| GptTable.SuggestRegion | cfdisk_gpt_linux.go:322-343 | The method answers that offer, and none exactly when it is empty |
| GptTable.OfferIsLargest | cfdisk_gpt_linux.go:322-343 | The offer lies in the usable range apart from every partition; no aligned range that is apart from every partition is larger; it is aligned unless it holds no aligned sector, and empty exactly when nothing is free |
| GptTable.OfferedIsValid | cfdisk_gpt_linux.go:322-343 | A free slot filled with an offered range and a new identity leaves the table valid |
| GptSort.SortedTableKeeps | cfdisk_gpt_linux.go:523-531 | Sorting keeps the table valid and its partitions, orders them by start, and leaves empty slots last and clear |
| GptCodec.BuildHeader | cfdisk_gpt_linux.go:761-777 | The buffer writes produce the header bytes |
| GptCodec.HeaderRoundTrip | cfdisk_gpt_linux.go:170-202 | A built header parses for its place, with its identity and the checksum of its entries |
| GptCodec.BuildEntries | cfdisk_gpt_linux.go:717-729 | The entry array holds each used slot and zeros for each empty one |
| GptCodec.EntriesRoundTrip | cfdisk_gpt_linux.go:140-158 | Entries are read back, with whatever an empty slot held cleared |
| GptCodec.ProtectiveFacts | cfdisk_gpt_linux.go:741-759 | The protective record keeps the boot code, is signed, claims the disk from sector 1 up to 2^32 - 1 sectors, and clears the other slots |
| GptCodec.BuildGpt | cfdisk_gpt_linux.go:706-739 | Both copies are built exactly from 68 sectors on, for a valid table with the usable range 34 to sectors - 34; what is built has the bytes of `GptLayout.Layout` (signature, places, limits, counts, checksums, in the number of sectors alone), the slots of the table and the protective record |
| GptCodec.ReadGpt | cfdisk_gpt_linux.go:120-163 | A pair is taken exactly when its bytes are those of `GptLayout.Layout`, and the table is the one that its bytes tell |
| GptCodec.ReadLayout | cfdisk_gpt_linux.go:120-163 | Which pairs are taken, at every offset of both headers and of all 128 entries, in terms of the number of sectors alone |
| ByteBuffers.LeSpelled | cfdisk_gpt_linux.go:181-191 | Numbers of two, four and eight bytes, the lowest byte first |
| ByteBuffers.CheckValue | cfdisk_gpt_linux.go:170-202 | The checksum of the nine digits `123456789` is 0xcbf43926 |
| GptCodec.StateRoundTrip | cfdisk_gpt_linux.go:120-163 | What is built is read back as the same table exactly when its empty slots hold nothing |
| GptCodec.ReadIsSound | cfdisk_gpt_linux.go:120-163 | Whatever is read is valid, with clear empty slots |
| Disks.Disk.WriteAt | cfdisk_gpt_linux.go:808-817 | Sectors are written one by one, each a state of its own; a failure leaves some of the first |
| Disks.Disk.Sync | cfdisk_gpt_linux.go:823-825 | Pending writes become durable |
| GptWrite.BackupHalfSafe | cfdisk_gpt_linux.go:818-825 | Before the first sync no crash touches the old primary copy |
| GptWrite.PrimaryHalfSafe | cfdisk_gpt_linux.go:826-837 | After it no crash harms the new backup copy |
| GptWrite.WriteGpt | cfdisk_gpt_linux.go:792-852 | It succeeds exactly on a pair that is taken, an addressable disk and a device that takes all its 69 steps. After every sector write and sync, wherever the device fails and whichever unsynced writes survive, the old primary is untouched or the new backup is whole, and no sector between the two copies has changed; on success each area is in its sectors |
| GptWrite.CrashLeavesCopy | cfdisk_gpt_linux.go:818-837 | After any such crash the old primary reads as before, or the backup parses with the new entries and identity, and every sector for partitions is as it was |
| GptWrite.SyncNeeded | cfdisk_gpt_linux.go:823-825 | Without the first sync some crash leaves neither copy whole |
| GptSession.Session.New | cfdisk_gpt_linux.go:393-463 | One free slot is filled with the range that was typed or offered, exactly when that leaves the table valid; otherwise nothing changes |
| GptSession.NewPartitionSays | cfdisk_gpt_linux.go:447-453 | A new partition has the Linux filesystem type, no attributes and the name `Linux filesystem` |
| GptSession.StampSays | cfdisk_gpt_linux.go:245-255 | A random identity has version 4 and the RFC 4122 variant, and keeps all other bits |
| GptSession.OfferCanBeTaken | cfdisk_gpt_linux.go:393-463 | Two blank answers create a partition exactly when a slot and a usable sector are free and the identity is new |
| GptSession.Session.Delete | cfdisk_gpt_linux.go:465-476 | The selected used slot is cleared, or nothing changes |
| GptTable.EmptyIsClear | cfdisk_gpt_linux.go:465-476 | A cleared slot is zero in every field |
| GptSession.Session.Resize | cfdisk_gpt_linux.go:478-513 | The end changes exactly when the size fits, leaves the table valid and differs |
| GptSession.Session.SortByStart | cfdisk_gpt_linux.go:515-548 | The table is sorted, and the selection stays on its partition |
| GptSession.Session.ChangeType | cfdisk_gpt_linux.go:550-575 | Only the type of the selected partition changes, and never to the empty one |
| GptSession.Session.WriteTable | cfdisk_gpt_linux.go:664-704 | Done exactly when there are changes, the answer is yes, the disk is as it was read, and the device takes every step; validation never refuses, every crash is recoverable, and after success the disk reads back as the table |
| GptSession.WriteAccepted | cfdisk_gpt_linux.go:664-704 | A kept table is built without refusal and reads back exactly |
| DosTable.ValidateParts | cfdisk_linux.go:1224-1260 | Validation answers exactly: starts, types, bounds, one extended partition, no overlap |
| DosTable.PartsFreeRegions | cfdisk_linux.go:1198-1222 | Partitions and free regions cover each sector after the boot record exactly once |
| DosTable.SuggestRegion | cfdisk_linux.go:1173-1196 | The method answers that offer, and none exactly when it is empty |
| DosTable.OfferIsLargest | cfdisk_linux.go:1173-1196 | The offer lies behind the boot record apart from every partition; no aligned range that is apart from every partition is larger; it is aligned unless it holds no aligned sector, and empty exactly when nothing is free |
| DosTable.OfferedIsValid | cfdisk_linux.go:1173-1196 | A free slot filled with an offered range leaves the table valid |
| DosTable.SortedPartsKeep | cfdisk_linux.go:822-833 | Sorting keeps the table valid and its partitions, in start order |
| DosTable.BuildMbr | cfdisk_linux.go:1266-1290 | The record keeps the boot code, holds each slot at its offset with flag, type, start, size and sentinels, zeros for absent ones, and is signed |
| DosTable.MbrRoundTrip | cfdisk_linux.go:1266-1290 | Every slot is read back, the boot code is kept, and the record is signed |
| DosTable.SlotSays | cfdisk_linux.go:341-353 | What a slot is read as, byte by byte |
| Logicals.ValidateLogicals | cfdisk_extended_linux.go:157-190 | Validation answers exactly: sizes, types, boot record before data, inside the container, no overlap |
| Logicals.PermutedValid | cfdisk_extended_linux.go:157-190 | Validity does not depend on the order of the list |
| Logicals.OrderChains | cfdisk_extended_linux.go:157-190 | In a valid list by start, boot records and data follow one another |
| Logicals.LogicalFreeRegions | cfdisk_extended_linux.go:102-122 | The loop computes the gaps between boot records with their data, for any list |
| Logicals.RegionsTile | cfdisk_extended_linux.go:102-122 | For every list inside its container, read from a disk or edited: each unused sector is free exactly once, and used and free cover the container exactly once if and only if no partitions overlap |
| Logicals.SuggestLogical | cfdisk_extended_linux.go:134-152 | The loop answers the first of the largest regions, for any list |
| Logicals.RoomiestLeads | cfdisk_extended_linux.go:134-152 | That region is a boot record at the front of some gap with aligned data behind it, and no gap leaves more |
| Logicals.SuggestedIsLargest | cfdisk_extended_linux.go:134-152 | No partition at a multiple of 2048 that can join a valid list is larger than the one offered |
| Logicals.RegionAligned | cfdisk_extended_linux.go:134-152 | The region offered in a gap has its boot record in front, data at the next multiple of 2048, and reaches to the end of the gap |
| Logicals.BootRecordFor | cfdisk_linux.go:654-661 | The front of the first gap that the start falls into, if it falls into one, for any list |
| Logicals.GapUnique | cfdisk_linux.go:654-661 | In a valid list a start falls into one gap only |
| Logicals.InGapIsValid | cfdisk_extended_linux.go:134-152 | A partition placed with its boot record inside one gap leaves the list valid |
| EbrChain.BuildChain | cfdisk_extended_linux.go:259-309 | Start order, then one record for each entry, refused exactly when a check fails. The bytes of a valid list: each record holds its partition, and a link over exactly the next record and partition as far as the record behind, or the end of the container; from the second record on the links cover the container once |
| EbrChain.ValidFits | cfdisk_extended_linux.go:259-309 | Building never refuses a valid list |
| EbrChain.ReadChain | cfdisk_extended_linux.go:49-96 | The hop loop returns what the chain describes in at most 256 records, in start order and inside the container, or an error; a valid list in order is returned as it is |
| EbrChain.WalkAdvances | cfdisk_extended_linux.go:49-96 | Whatever the disk holds, the walk strictly advances, stays in the container, and ends within 256 records |
| EbrChain.ChainRoundTrip | cfdisk_extended_linux.go:49-96 | A valid list whose first record is at the front of the container is read back exactly when it has at most 256 entries; a longer one is refused |
| EbrChain.ChainReadBack | cfdisk_extended_linux.go:49-96 | Any valid list, the empty one included, is read back if and only if the disk was prepared: for the empty list no record describes a partition; for any other, few enough records without a partition lead from the front of the container to its first record |
| EbrChain.WalkBarren | cfdisk_extended_linux.go:49-96 | A chain reads as empty if and only if records without a partition lead to an unsigned sector or to a record without a link |
| EbrChain.EmptyKeepsChain | cfdisk_extended_linux.go:259-262 | Of the empty list nothing is written, so every partition that the chain held is read again |
| EbrChain.DeletedReturn | cfdisk_extended_linux.go:259-309 | On a disk where a list chains from the front of the container, deleting its first partition, or all of them, and writing is undone: reading gives the whole list as it was |
| EbrChain.DeletionUndone | cfdisk_extended_linux.go:259-309 | A concrete disk with two partitions where both deletions are lost |
| EbrChain.TooManyLost | cfdisk_extended_linux.go:49-58 | A concrete valid list of 257 partitions that is written and then refused |
| EbrChain.ChainLost | cfdisk_extended_linux.go:259-262 | Without a record of the list at the front, a partition described there loses the list, the empty one too, and so does an unsigned sector unless the list is empty |
| EbrChain.OrderUnique | cfdisk_extended_linux.go:94-95 | A valid list has only one start order, so the sort at the end returns it as it was |
| DosWrite.WriteDos | cfdisk_linux.go:1050-1073 | Boot records, a sync, the boot record, a sync: done exactly when the device takes every step, with the disk then as written |
| DosWrite.OldOrWhole | cfdisk_linux.go:1056-1062 | After any crash on the way the disk has its old boot record or every record of the new chain, and all other sectors are as they were |
| DosWrite.DanglesExactly | cfdisk_linux.go:1056-1062 | No crash leaves a boot record that points at a chain not all there, if and only if the old boot record did not point at the container, or the chain was there already |
| DosWrite.CrashDangles | cfdisk_linux.go:1056-1062 | A concrete disk where the old boot record points at the container and the chain is new |
| DosSession.Session.New | cfdisk_linux.go:508-574 | One free slot is filled with what was typed or offered, exactly when that fits the fields and leaves the table valid; otherwise nothing changes |
| DosSession.Session.NewLogical | cfdisk_linux.go:580-648 | One partition joins the list, as typed or offered, its boot record at the front of its gap, exactly when that fits the fields and leaves the list valid; it becomes selected and the list stays in order |
| DosSession.Session.DeletePrimary | cfdisk_linux.go:678-695 | The slot is cleared, and the logical partitions with it when it was the container |
| DosSession.Session.DeleteLogical | cfdisk_linux.go:671-677 | The entry is removed; the selection is left off the rows exactly when it was last and no free row remains |
| DosSession.Session.ResizePrimary | cfdisk_linux.go:698-749 | The size changes exactly when both tables stay valid and it differs |
| DosSession.Session.ResizeLogical | cfdisk_linux.go:754-779 | The size changes exactly when the list stays valid |
| DosSession.Session.SortByStart | cfdisk_linux.go:781-820 | The slots are sorted, the container is the same, and a primary selection stays on its partition |
| DosSession.Session.ChangeTypePrimary | cfdisk_linux.go:913-959 | The type changes exactly when it makes no second container and takes none from under logical partitions |
| DosSession.Session.ChangeTypeLogical | cfdisk_linux.go:963-982 | The type changes to anything but empty or extended |
| DosSession.Session.TogglePrimary | cfdisk_linux.go:984-1010 | Only the boot flag of the selected partition changes |
| DosSession.Session.ToggleLogical | cfdisk_linux.go:984-1010 | Only the boot flag of the selected logical partition changes |
| DosSession.Session.WriteTable | cfdisk_linux.go:1012-1073 | Written exactly when dirty, confirmed, unchanged on disk and the device takes every step, so validation never refuses; slots read back as kept, the logical list exactly when the disk was prepared for it, and every crash leaves the old boot record or the whole chain |
| DosActions.RelabelledSound | cfdisk_linux.go:913-959 | A change of type or flag keeps table and container sound |
| DosActions.ResizedSound | cfdisk_linux.go:698-749 | A resize that validates keeps table and container sound |
| DosActions.SortedSound | cfdisk_linux.go:822-833 | A sort keeps table and container sound |
| DosActions.DefaultFits | cfdisk_linux.go:580-648 | The offered start and size of a logical partition always validate when the start fits 32 bits |
| DosActions.OfferCanBeTaken | cfdisk_linux.go:508-574 | Two blank answers create a partition exactly when a slot is free and what is free can be addressed in 32 bits |
| DosActions.LogicalOfferCanBeTaken | cfdisk_linux.go:580-648 | Two blank answers create a logical partition exactly when a gap has an aligned sector and the offered start fits 32 bits |
| DosActions.SelectionCanBeLost | cfdisk_linux.go:671-677 | A container of 100 sectors where deleting the only logical partition leaves the selection beyond the last row |
| Supervisor.DelayGrows | init_linux.go:454-463 | One second after the first short run, doubled by each further one, never above 32 |
| Supervisor.ShortRunsCount | init_linux.go:442-450 | The failure count is the number of short runs since the last long one |
| Supervisor.Init.Start | init_linux.go:407-421 | For a due service exactly one process is forked and recorded, under a number no unreaped child has, or none is and its failure is counted |
| Supervisor.Init.StartDue | init_linux.go:404-423 | Each service is looked at once: only an enabled one without a process and past its time is started, the children grow by exactly the processes that are recorded, and both tables agree |
| Supervisor.Init.Reap | init_linux.go:425-452 | Every exited child is reaped once; its service loses its process and its run is judged, a disabled one is only let go |
| Supervisor.Init.DropUnwanted | init_linux.go:385-397 | Wanted services keep their object, process and counters; the others are disabled, told to end and dropped |
| Supervisor.Init.Reconcile | init_linux.go:378-402 | The keys become exactly id, action and command of the entries to respawn or ask first, each with the last such entry; a service whose key no such entry has is disabled and told to end; kept services keep their process and counters, new ones are new |
| Supervisor.Init.OneProcessEach | init_linux.go:432-437 | The invariant that every method here keeps, spelled out: of all unreaped children that were ever forked for a service at most one is for each, the one that the service and the process table name |
| Supervisor.Init.RestartRule | init_linux.go:442-463 | After k short runs in a row the next start waits 2^(k-1) seconds, at most 32, from the last exit |
| DnsNames.EncodeName | diagnostics_linux.go:735-752 | The wire form, refused exactly for an empty or long label or 255 bytes and more |
| DnsNames.EncodeLimits | diagnostics_linux.go:735-752 | A name is encoded exactly when, without one trailing dot, it is empty, or has at most 253 bytes and labels of 1 to 63 |
| DnsNames.LabelsFit | diagnostics_linux.go:748-750 | An accepted name has at most 127 labels |
| DnsNames.SplitPlain | diagnostics_linux.go:735-752 | The labels that are encoded hold no dot, so they are the pieces between the dots of the name |
| DnsNames.DecodeName | diagnostics_linux.go:859-892 | The loop and its recursion at a pointer end on every message and compute the decoded name |
| DnsNames.DecodeInside | diagnostics_linux.go:859-892 | The next offset lies after the start and within the message |
| DnsNames.DecodeGrounded | diagnostics_linux.go:859-892 | A name is decoded if and only if at most 16 pointers behind it lead to a root |
| DnsNames.LoopRefused | diagnostics_linux.go:860-862 | Pointers that lead round among any set of places are refused from each of them, at every depth |
| DnsNames.RoundTrip | diagnostics_linux.go:859-892 | An encoded name anywhere in a message decodes to itself up to one trailing dot |
| DnsNames.TooManyLabels | diagnostics_linux.go:864-892 | A name of 128 labels or more is refused, whatever follows |
| DnsNames.PointerReads | diagnostics_linux.go:869-880 | Labels before a pointer read as if the suffix stood there, exactly when the suffix is not the root or nothing stands before it |
| DnsNames.RootPointerReads | diagnostics_linux.go:869-880 | A concrete message where a label and a pointer to the root decode with two dots |
| DnsNames.CompressedRoundTrip | diagnostics_linux.go:869-880 | A name whose non-root suffix is replaced by a pointer decodes to the same text |

## Left out

- Files, devices, sockets, signals and processes themselves: a disk is its sectors with pending writes, the kernel is a set of unreaped process numbers and events, a prompt is an argument, and output goes to a sequence of bytes that cannot fail.
- Messages, drawing, key decoding, option parsing, number parsing and dumps: an action reports whether it changed something, and a typed number arrives as a number or as malformed.
- Bzip2Crc.ComputeCrc: nothing is proved about the error detection of the checksum; the decoder recomputes it. The same holds for the checksum in the GPT codec, `ByteBuffers.Crc32`.
- Extents.SortByStart: `sort.Slice` is an insertion sort here; callers use only that the result is an ordered permutation. `Bzip2BlockSort.SortPositions` and `Logicals.SortLogicals` are used in the same way.
- Bzip2Coding.ReadCodingBits: the decoder takes any tables and selectors that the format allows, but it is proved to read back only those that the writer chooses.
- DiffHunks.UnifiedHunks: the printed start of a side without lines, headers, time stamps and the marks for a missing final newline are not modelled.
- GptTable.TableFreeRegions: numbers are unbounded here; the 64-bit cursor of the source would wrap to 0 behind a partition that ends at sector 2^64 - 1, which no geometry makes usable (`GptTable.GeometryFits`).
- DiffScript.Align: the normaliser is any function on lines; what the ignore options fold is not modelled.
- TarMatch.Agreement: one direction; patterns that are read as different elements can still match the same names, as a set of two backslashes does. The reading itself is compared in both directions by `TarMatch.SameReading`.
- GptCodec.EntriesRoundTrip: a name is its 36 UTF-16 units; the conversion from and to text, and its truncation to 36 units, is not modelled.
- GptCodec.ProtectiveFacts: the original boot record is always 512 bytes long, as the session reads it.
- GptWrite.WriteGpt: a sector is written whole or not at all, and a failing sync leaves its writes pending; rereading the table by the kernel is not modelled.
- GptSession.Session.WriteTable: of the checks on the target only the comparison with the state read before is modelled, once instead of before and after the prompt.
- GptSession.Session.Select: the selection moves to any slot; which rows are shown is not modelled.
- DosSession.Session.constructor: a session begins on a table and a list that validate; what the actions do to others, which the source opens too, is not modelled.
- DosSession.Session.New: every action needs a selection on a row, since the source clamps it to find the kind of row but indexes the slots with it unclamped.
- DosSession.Session.WriteTable: of the checks on the target only the comparison with the boot record read before is modelled, once instead of before and after the prompt.
- Supervisor.Init.StartDue: the map is traversed in any order and a start fails at any time; commands, terminals and environment are not modelled. A disabled service is only told to end; that its process obeys is not claimed.
- DnsNames.DecodeName: the sections of a message around names, and the other record data, are not modelled.
- Other applets, the awk and shell interpreters, compression formats other than bzip2, and network configuration: easier or too wide.
