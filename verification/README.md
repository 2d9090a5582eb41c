# Verified models of the codec wrappers

This project models five parts of the workspace in Dafny 4.11 and proves what they are for.

* **The EXR byte map** (`Exr*.dfy`): an interval set, a replay of the reader's cursor, a pruning pass over
  overwritten chunks, a gap scan, the framing of PIZ, RLE and zlib blocks, and Adler-32. Every byte between the
  offset tables and the last chunk is assigned exactly once, and pruning never changes the picture. What is read is
  what the bytes store (`ExrStored.dfy`, `ExrPizBytes.dfy`).
* **The IVF demuxer and muxer** (`Ivf*.dfy`): a reader fed windows of a file, its lazily built seek index, and a
  writer with an optional count patch. The windows do not matter, a seek agrees with reading the whole file, and
  what the muxer writes the demuxer reads back.
* **The TIFF EXIF writer and unpackers** (`Tiff*.dfy`): a directory printer checked against a reader written from
  section 2 of TIFF 6.0, sub-byte unpacking against packing, and plane transposition.
* **The PSD decoder and its inventory** (`Psd*.dfy`): PackBits, prediction, zlib planes, interleaving, and a second
  unchecked walk that relies on the first. The same planes give the same picture however they are compressed.
* **The JP2 box walker** (`Jp2*.dfy`): two passes over nested boxes; `Jp2HeaderBytes.dfy` and `Jp2Fates.dfy` say what
  becomes of each box by its type, its bytes and its rivals.

`Wrappers`, `Bytes`, `Bits`, `Sorting`, `Planes`, `Inventory` and `Nesting` are shared. A byte map is a `Recorder`: the
sequence of parts pushed so far, each with its parent, range and disposition. `Tiling` says that ranges cover a body
in order without gaps or overlaps. `HoldsAt` says that bytes lie somewhere in a file: headers, sections,
chunks, boxes and packets are proved to be read exactly as the bytes hold them, field by field, with the numbers
written out.

Code that works step by step is modelled by classes and methods with loops and arrays, each proved against a function
or predicate that says what it computes; lemmas then state what the source promises about that function. Calls into
code that is not in the repository are parameters: the inflaters are arbitrary replies or an arbitrary machine with a
contract, and the EXR tile geometry and whether a JP2 codestream fails the decode are function-valued.

`dafny verify dfyconfig.toml` checks the whole project. Some proofs `hide` function bodies they do not need.

Where the code and an expected property differ:

* A nearest seek's distance is exact if and only if the difference of the cross products lies strictly between -2^127
  and 2^127 (`IvfPick.DistanceExact`); tick magnitudes below 2^62 are enough (`IvfPick.TameFits`), and without it the
  farther packet can be chosen (`IvfPick.NearestOverflows`), exactly when an entry at least 2^127 away misleads the seek
  (`IvfPick.OptimumIsPickedIff`). The model wraps around, as a build without overflow checks does; with them, the first
  condition says when the subtraction and its absolute value do not panic.
* When no packet qualifies at the end of a scan, the demuxer stays in its scanning state without a target
  (`IvfDemux.FinishStaysAimed`): a further step panics, exactly there (`IvfRuns.PanicsIffStranded`,
  `IvfRuns.StrandedExample`), while a further seek is answered (`IvfReading.SeekLands`).
* A scan notes a packet before it sees that the file ends inside it, and the index is then no longer the file's; every
  other step, failing or not, keeps it (`IvfRuns.AdvanceKeeps`).
* EXIF offsets are not always on word boundaries (`TiffReader.WordsIffOddLast`, `TiffReader.OffWordExample`), and
  more than 65535 entries lose some (`TiffReader.TooManyEntriesAreLost`).
* The two PSD walks can name different EXIF blocks (`PsdResources.ExifAgreesIff`, `PsdResources.ExifDisagreesExample`).

## Model

| member | source | states |
|---|---|---|
| `ExrCoverage.Coverage.Uncovered` | zenexr/src/inventory.rs:1855-1887 | Returns exactly the bytes of the range that no span covers, as ascending ranges that neither touch nor overlap. |
| `ExrCoverage.Coverage.Absorb` | zenexr/src/inventory.rs:1896-1902 | Removes exactly the spans that start within reach and returns the furthest end among them. |
| `ExrCoverage.Coverage.Insert` | zenexr/src/inventory.rs:1889-1904 | Covers exactly the bytes covered before and the range, and keeps the spans disjoint and non-touching. |
| `ExrChunk.ReadChunkBounds` | zenexr/src/inventory.rs:1218-1318 | An accepted chunk lies inside the file and takes at least one byte. |
| `ExrChunk.ReadChunkTiles` | zenexr/src/inventory.rs:1218-1318 | The fields and data of an accepted chunk tile it, in order. |
| `ExrChunk.DataUseTiles` | zenexr/src/inventory.rs:1538-1620 | Whatever the decoder is said to use of a block's bytes tiles the block. |
| `ExrStored.StoredIsRead` | zenexr/src/inventory.rs:1218-1318 | A chunk in the bytes, part number, coordinates, sizes and data little-endian in this order, is read as exactly that chunk: scan line or tile, flat or deep, single or multi-part. |
| `ExrStored.ReadIsStored` | zenexr/src/inventory.rs:1218-1318 | And whatever chunk is read is in the bytes, in bounds of its part, its sizes and the maximum. |
| `ExrStored.RefusalEnds` | zenexr/src/inventory.rs:1218-1318 | A refused chunk ends where the reader got: past a part number, tile coordinates or size that is wrong, and otherwise at the end of the file. |
| `ExrStored.RawBlocksFit` | zenexr/src/inventory.rs:1320-1333 | The maximum is the size of a whole block: no smaller block is over it. |
| `ExrStored.DataUseIs` | zenexr/src/inventory.rs:1538-1620 | Which decoder and which size each compression takes: raw bytes of the exact size always, RLE tokens and zlib streams of the block, of the packed block for PXR24, PIZ framing, and any B44 or DWA data. |
| `ExrSimulate.ReadAtTarget` | zenexr/src/inventory.rs:2173-2199 | A chunk is read at its target less the short skips counted twice since the last absolute seek, and at the target exactly when there are none or the seek is absolute. |
| `ExrSimulate.DebtIsSkipped` | zenexr/src/inventory.rs:2162-2199 | The difference of the two cursors is the sum of the short forward skips since the last absolute seek. |
| `ExrSimulate.ExactWithoutShortSkips` | zenexr/src/inventory.rs:2173-2199 | A table without short skips is read exactly at its targets. |
| `ExrSimulate.SeekTo` | zenexr/src/inventory.rs:2179-2197 | One seek: rejects exactly a short skip past the end of the file, and otherwise leaves both cursors where the replay says. |
| `ExrSimulate.ReadOne` | zenexr/src/inventory.rs:2199-2276 | Accepts exactly the chunks the decoder reads at an offset, and otherwise records as malformed what the reader got through, which is exactly where the refusal ends, or the whole chunk if only its coordinate or data is refused. |
| `ExrSimulate.AcceptedIsStored` | zenexr/src/inventory.rs:2199-2276 | Accepted exactly when the file stores a chunk there, field for field, that fits under the maximum, whose coordinates name a block and whose data decoding has a use for. |
| `ExrSimulate.TargetsAre` | zenexr/src/inventory.rs:2155-2160 | The targets ascend and are exactly the table entries of the largest level. |
| `ExrSimulate.AcceptedIsPlaceable` | zenexr/src/inventory.rs:2199-2276 | An accepted chunk's pieces and data use tile it, so it can be placed. |
| `ExrSimulate.Overwrite` | zenexr/src/inventory.rs:2277-2302 | Marks exactly the kept chunks of the same index whose rectangle lies inside the new one, and forgets them. |
| `ExrSimulate.Keep` | zenexr/src/inventory.rs:2277-2321 | Recording an accepted chunk keeps the pruning exact and the table of visible chunks right. |
| `ExrSimulate.Simulate` | zenexr/src/inventory.rs:2147-2324 | Every run reads the chunks the replayed cursor reaches, in order, stops at the first rejection, and prunes exactly the chunks a later one overwrites. |
| `ExrSimulate.PruningKeepsPicture` | zenexr/src/inventory.rs:2164-2321 | At every pixel, painting all accepted chunks and painting only those still marked as image data give the same last writer, chains of overwrites included. |
| `ExrSimulate.KeptIsVisible` | zenexr/src/inventory.rs:2164-2321 | On a tiled geometry an accepted chunk stays marked as image data exactly when some pixel still shows it. |
| `ExrSimulate.PainterDrawsLast` | zenexr/src/inventory.rs:2277-2302 | The painter of a pixel is the last chunk drawn over it. |
| `ExrPlace.PlaceFields` | zenexr/src/inventory.rs:2352-2455 | The fields recorded inside a chunk are exactly its part number, coordinates and sizes, as framing, and its data by its use, slack unreferenced, each with its disposition; they tile it. |
| `ExrPlace.Place` | zenexr/src/inventory.rs:2326-2455 | A chunk adds exactly its uncovered bytes at the top level, each once, with its disposition, and is recorded whole when nothing of it was covered. |
| `ExrWalk.Resync` | zenexr/src/inventory.rs:2462-2514 | The gap scan finds exactly the greedy sequence of chunks, with unreferenced slack between, and gives up after the limit. |
| `ExrWalk.ScanGap` | zenexr/src/inventory.rs:2462-2514 | The same for the chunks a file holds in a gap. |
| `ExrWalk.FoundIsStored` | zenexr/src/inventory.rs:2462-2514 | A chunk is found exactly where the file stores a flat chunk, field for field, that ends in the gap, is no longer than its part's blocks, and whose coordinates name a block. |
| `ExrWalk.FoundOnTop` | zenexr/src/inventory.rs:2462-2514 | What the gap scan records tiles the gap and is all unreferenced. |
| `ExrWalk.Others` | zenexr/src/inventory.rs:2058-2080 | The other table entries are each offset inside the file that decoding did not read, once, ascending. |
| `ExrWalk.SortedDistinct` | zenexr/src/inventory.rs:2058-2080 | Sorting distinct offsets gives a strictly ascending list of the same offsets. |
| `ExrWalk.Collect` | zenexr/src/inventory.rs:2031-2120 | The chunks placed are what decoding read, none of it image data if the file is rejected, then the skipped ones. |
| `ExrWalk.SkippedAre` | zenexr/src/inventory.rs:2082-2098 | Of the other entries, those that read as chunks are placed, once, in order, as skipped. |
| `ExrWalk.PlaceAll` | zenexr/src/inventory.rs:2122-2126 | After any list of chunks, overlapping or out of order, top-level parts are pairwise disjoint, avoid the tables and are what the coverage grew by. |
| `ExrWalk.ScanGaps` | zenexr/src/inventory.rs:2127-2131 | Every interior gap is filled by its own scan. |
| `ExrWalk.AllAssigned` | zenexr/src/inventory.rs:2119-2131 | Every byte a chunk covers belongs to the first chunk placed over it, every other byte to its gap. |
| `ExrWalk.Walk` | zenexr/src/inventory.rs:1932-2135 | The top-level parts are pairwise disjoint, never touch the tables, together are exactly the bytes from the tables to the end of the last chunk, and each byte is assigned to the part that owns it; a chunk that lies in nothing placed before it is recorded whole, with exactly its fields, each with its disposition, which tile it, and nothing else. |
| `ExrPiz.ReadBits` | zenexr/src/inventory.rs:1463-1482 | The never-masked accumulator returns exactly the next bits of the table, most significant first, and fails exactly when there are too few. |
| `Bits.OrInByte` | zenexr/src/inventory.rs:1463-1482 | In 64 bits, shifting a byte into the accumulator and or-ing it in appends it, whatever stale bits are above. |
| `ExrPiz.ReadRun` | zenexr/src/inventory.rs:1484-1492 | One table entry is read as the bit string spells it. |
| `ExrPiz.ReadEncodingTable` | zenexr/src/inventory.rs:1463-1497 | The table ends, or fails, where the code lengths of the wanted range, exactly as many as the range holds, end or fail. |
| `ExrPiz.CodeTableEnds` | zenexr/src/inventory.rs:1483-1497 | A code table stays inside its bits; every run is at least one code. |
| `ExrPiz.ReadPizHeader` | zenexr/src/inventory.rs:1437-1462 | The fixed fields are read in order, and the first fault decides. |
| `ExrPiz.PizFields` | zenexr/src/inventory.rs:1420-1535 | Accepts exactly the blocks whose framing the reference accepts, with the nine fields the reference lays out. |
| `ExrPiz.PizFieldsTile` | zenexr/src/inventory.rs:1511-1534 | The nine fields tile the block. |
| `ExrPizBytes.CodesAreRead` | zenexr/src/inventory.rs:1483-1497 | Code lengths and runs of zeros, spelled in 6 and 8 bits, are read as the lengths they spell. |
| `ExrPizBytes.FramedIsAccepted` | zenexr/src/inventory.rs:1420-1535 | A block written part after part is accepted, with the bitmap, the table and the lengths it was written with. |
| `ExrPizBytes.AcceptedIsFramed` | zenexr/src/inventory.rs:1420-1535 | And every block that is accepted is one written so. |
| `ExrRle.RleConsumed` | zenexr/src/inventory.rs:1638-1661 | Reads as the reference reads. |
| `ExrRle.AcceptedIsTokenized` | zenexr/src/inventory.rs:1638-1661 | A block is consumed whole exactly when it is a sequence of well-formed tokens that produce exactly the expected bytes. |
| `ExrZlib.Adler32.UpdateBlock` | zenexr/src/inventory.rs:1765-1773 | A block of at most 5552 bytes never overflows 32 bits and leaves the reduced byte-by-byte sums. |
| `ExrZlib.Adler32.Update` | zenexr/src/inventory.rs:1765-1774 | Updating with any bytes gives the byte-by-byte sums of section 8.2 of RFC 1950. |
| `ExrZlib.Adler32.Result` | zenexr/src/inventory.rs:1776-1778 | Once the sums are those of some bytes, shifting one and or-ing the other gives the checksum RFC 1950 stores for those bytes. |
| `Bits.OrHalves` | zenexr/src/inventory.rs:1777 | In 32 bits, the shift and the or of two 16-bit halves are their sum at their places. |
| `Bits.OrBits` | zenexr/src/inventory.rs:1777 | Each bit of an or is that of either number. |
| `ExrZlib.BlockIsTheLongest` | zenexr/src/inventory.rs:1766 | 5552 is exactly the longest block whose sums cannot overflow 32 bits. |
| `ExrZlib.MaxBReached` | zenexr/src/inventory.rs:1766 | The bound is attained, so no longer block is safe. |
| `ExrZlib.RfcConcat` | zenexr/src/inventory.rs:1723-1726 | Updating with two strings is updating with their concatenation. |
| `ExrZlib.RfcTwoParts` | zenexr/src/inventory.rs:1723-1726 | The two-part update at the window's end is one update. |
| `ExrZlib.ZlibScan.Feed` | zenexr/src/inventory.rs:1714-1726 | One inflater call leaves the checksum of all the output so far, though the output straddles the window's end. |
| `ExrZlib.ZlibScan.Inflate` | zenexr/src/inventory.rs:1708-1749 | With any inflater, the scan ends as if the output were one unbroken string. |
| `ExrZlib.ZlibScan.End` | zenexr/src/inventory.rs:1694-1750 | Header faults in order, then the end of the stream. |
| `IvfDemux.IvfDemuxer.Step` | zenivf/src/lib.rs:458-471 | A window that is enough makes the demuxer do what the whole file says, whatever else it shows, a panic included; any other changes nothing and is answered with a request. |
| `IvfDemux.IvfDemuxer.StepHeader` | zenivf/src/lib.rs:286-338 | The header step, field by field, in file order. |
| `IvfDemux.IvfDemuxer.StepPacket` | zenivf/src/lib.rs:340-410 | The packet step, with the checks in their order. |
| `IvfDemux.IvfDemuxer.StepScan` | zenivf/src/lib.rs:412-447 | The scan step over packet headers. |
| `IvfDemux.IvfDemuxer.Deliver` | zenivf/src/lib.rs:391-410 | Delivering a packet notes it and moves the reading position, and the scan position unless that is ahead. |
| `IvfDemux.IvfDemuxer.CompleteScan` | zenivf/src/lib.rs:278-284 | Completing a scan lands on the picked entry, fails with the state left scanning and without a target, or panics if there was none. |
| `IvfDemux.FinishStaysAimed` | zenivf/src/lib.rs:278-284 | A finished scan leaves a state that is scanning without a target exactly when no entry qualified or it had no target. |
| `IvfDemux.IvfDemuxer.Position` | zenivf/src/lib.rs:266-276 | Reading resumes at an index entry. |
| `IvfDemux.IvfDemuxer.Note` | zenivf/src/lib.rs:233-241 | The index grows only by the entry it lacks next. |
| `IvfDemux.IvfDemuxer.Seek` | zenivf/src/lib.rs:489-507 | Seeking answers at once from a complete index and starts a scan otherwise. |
| `IvfDemux.TwoGrantsSuffice` | zenivf/src/lib.rs:286-447 | Granting two requests in a row is always enough to advance. |
| `IvfFormat.ChainSuffix` | zenivf/src/lib.rs:340-410 | Reading from the k-th packet on gives the rest of the packets. |
| `IvfFormat.AcceptedIsHeld` | zenivf/src/lib.rs:286-338 | An accepted header is in the bytes, field for field, little-endian at its offset; a count of all zeros or all ones declares nothing, any other itself. |
| `IvfFormat.HeldIsRead` | zenivf/src/lib.rs:286-338 | And a header in the bytes, of any length from 32, is accepted as just those fields, or refused for the first bad one. |
| `IvfFormat.RefusedIsHeld` | zenivf/src/lib.rs:286-338 | Every refusal is in the bytes too: the first field in file order that is not what it must be. |
| `IvfFormat.PacketIsHeld` | zenivf/src/lib.rs:340-410 | A packet that is read is in the bytes: length, signed timestamp and payload, and the next begins where it ends. |
| `IvfFormat.StopIsHeld` | zenivf/src/lib.rs:340-380 | Where there is no packet the file ends, its length is zero, or the file cuts its header or payload short. |
| `IvfRuns.AdvanceKeepsSound` | zenivf/src/lib.rs:286-447 | Every step that does not fail keeps the index a prefix of the file's true table, with the scan just past it. |
| `IvfRuns.AdvanceKeeps` | zenivf/src/lib.rs:286-447 | Steps that fail keep it too, or leave a scan stranded without a target but with the whole table: every step does, exactly unless it scans a packet cut short by the end of the file. |
| `IvfRuns.PanicsIffStranded` | zenivf/src/lib.rs:278-281 | A step panics exactly in a stranded state. |
| `IvfRuns.StrandedExample` | zenivf/src/lib.rs:278-284 | A one-packet file and a seek to before it strand the demuxer: the next step panics, and a seek that has an answer lands. |
| `IvfRuns.SeekKeepsSound` | zenivf/src/lib.rs:489-507 | Every seek keeps what is kept, and one that answers leaves a sound state, also from a stranded one. |
| `IvfRuns.RunsStaySound` | zenivf/src/lib.rs:286-507 | Every state of a run of steps and seeks in any order is sound until a step fails. |
| `IvfRuns.RunsKeep` | zenivf/src/lib.rs:286-507 | And whatever fails, every state is kept until a scan reads past the end of the file, which is exactly where it stops. |
| `IvfSchedules.SchedulesAgree` | zenivf/src/lib.rs:286-471 | Any two schedules of true windows from one state see events of which one list extends the other, and if both end, the same events, the same end and the same state. |
| `IvfSchedules.FollowEnds` | zenivf/src/lib.rs:286-447 | From every state with its header the file leads to an end. |
| `IvfSchedules.GrantedSchedulesEnd` | zenivf/src/lib.rs:286-471 | A driver of true windows that grants every request reaches an end, so any two of them see the same events and the same end. |
| `IvfReading.ReadsOn` | zenivf/src/lib.rs:340-410 | From packet k the demuxer delivers exactly the rest of the packets, up to a declared count, then ends as the file says. |
| `IvfReading.SequentialRead` | zenivf/src/lib.rs:286-410 | The whole read of a file: headers, packets, end. |
| `IvfReading.UncountedNeverMismatch` | zenivf/src/lib.rs:320-322 | A file whose count is all zeros or all ones never ends in a count mismatch. |
| `IvfReading.PastCountRefuses` | zenivf/src/lib.rs:373-380 | A seek past a wrong declared count delivers nothing and fails with the count. |
| `IvfPick.PickIsOptimum` | zenivf/src/lib.rs:243-264 | For any index: nothing is picked exactly when nothing qualifies in time, and otherwise the entry that is first by its distance, as 128 bits show it, timestamp and place; the optimum in exact rational time, ties included, when every difference fits. |
| `IvfPick.ComputedIsSeen` | zenivf/src/lib.rs:246-257 | What 128 bits show of an exact distance: the distance below 2^127, at 2^127 the nearest of all, and beyond it the nearer the farther. |
| `IvfPick.OptimumIsPickedIff` | zenivf/src/lib.rs:251-258 | A nearest seek picks the optimum if and only if no entry at least 2^127 away misleads it, a condition on exact distances, timestamps and places alone. |
| `IvfPick.NearestHasOptimum` | zenivf/src/lib.rs:251-258 | There is an optimum for every nearest seek over a nonempty index. |
| `IvfPick.ReducingKeepsOptimum` | zenivf/src/lib.rs:316-318 | Writing the time base of the header in lower terms changes no optimum. |
| `IvfPick.OptimumIsUnique` | zenivf/src/lib.rs:246-263 | Two optima never tie. |
| `IvfPick.CrossProductsFit` | zenivf/src/lib.rs:246-250 | Every cross product fits 128 bits. |
| `IvfPick.DistanceExact` | zenivf/src/lib.rs:251-257 | The distance computed in 128 bits is exact if and only if the difference of the cross products and its opposite fit. |
| `IvfPick.TameFits` | zenivf/src/lib.rs:251-257 | With tick magnitudes below 2^62 they always fit. |
| `IvfPick.NearestOverflows` | zenivf/src/lib.rs:251-257 | Where one does not fit, a nearest seek can choose the farther entry: a concrete index and target, with both time bases in lowest terms. |
| `IvfReading.SeekLands` | zenivf/src/lib.rs:489-507 | With a complete index, also after a scan that found nothing, a seek lands on its choice over the whole file, the optimum when every difference fits, or finds nothing exactly when nothing qualifies. |
| `IvfReading.ScanEnds` | zenivf/src/lib.rs:412-447 | Every scan ends: on its choice over the whole file, the optimum when every difference fits, stranded with nothing found, or with the file's own fault. |
| `IvfReading.ScanIsQuiet` | zenivf/src/lib.rs:412-447 | No event is seen before the one that ends the scan. |
| `IvfReading.SeekThenRead` | zenivf/src/lib.rs:266-447 | After a seek the packets delivered are exactly those of the full packet list from the chosen one on, up to a declared count, and then the file's end; all the rest unless the declared count is wrong. |
| `IvfMux.CodecRoundTrip` | zenivf/src/lib.rs:117-147 | A codec with a fourcc comes back as itself exactly unless it is an unknown tag that names a known codec. |
| `IvfMux.TagsName` | zenivf/src/lib.rs:117-147 | Which codec each tag names, spelled out, and that any other tag names itself. |
| `IvfMux.IvfMuxer.Begin` | zenivf/src/lib.rs:541-583 | Refuses in the muxer's order, and otherwise begins the file of the track. |
| `IvfMux.IvfMuxer.WritePacket` | zenivf/src/lib.rs:585-625 | Refuses in the muxer's order and then changes nothing; otherwise adds exactly the packet. |
| `IvfMux.IvfMuxer.ConsumeOutput` | zenivf/src/lib.rs:627-637 | Draining moves bytes to the destination and loses none. |
| `IvfMux.IvfMuxer.FinishOutput` | zenivf/src/lib.rs:639-653 | Whatever was drained when, the remaining bytes and the patch make the destination the file with the final count. |
| `IvfMux.CountPatched` | zenivf/src/lib.rs:644-651 | Patching the count changes the count field and nothing else. |
| `IvfMux.HeaderReads` | zenivf/src/lib.rs:565-573 | The header is read back as written exactly unless a dimension is zero. |
| `IvfMux.BodyReads` | zenivf/src/lib.rs:619-624 | The packets are read back as written up to the first empty payload. |
| `IvfMux.MuxRoundTrip` | zenivf/src/lib.rs:541-653 | Demuxing a muxed file gives the same dimensions, time base and packets, numbered from 0, then the end, and never a count mismatch; an empty payload, which the packet constructor appears to refuse, would end the reading there. |
| `IvfMux.ZeroDimensionsFail` | zenivf/src/lib.rs:558-571 | A zero dimension, which the track builder appears to refuse, would be written as it is and not be read back. |
| `TiffExif.SerializeExifIfd` | zentiff/src/decode.rs:415-669 | The two-buffer writer produces the laid-out blob, or nothing for no entries. |
| `TiffExif.WriteEntry` | zentiff/src/decode.rs:467-654 | One directory entry and its data, whatever the value. |
| `TiffExif.AppendItems` | zentiff/src/decode.rs:557-574 | A list outside its entry is its items of the first item's kind, one after another. |
| `TiffExif.InlineItems` | zentiff/src/decode.rs:544-556 | A list inside its entry puts each item of its kind at its own place among zero bytes. |
| `TiffValues.ListMeaning` | zentiff/src/decode.rs:538-640 | A homogeneous list is written item by item, each item's numbers at its place. |
| `TiffValues.NumbersCounted` | zentiff/src/decode.rs:467-654 | Every value but a mixed list is written with as many numbers as its count says. |
| `TiffValues.EncodedReads` | zentiff/src/decode.rs:425-438 | Numbers of every field type are read back, in either byte order, wherever they lie. |
| `TiffReader.BlobReads` | zentiff/src/decode.rs:415-669 | A reader of section 2 of TIFF 6.0, with its own marks, types and widths, recovers every tag, type, count and number in order, in both byte orders, for up to 65535 entries and a blob below 2^32 bytes. |
| `TiffReader.BlobBegins` | zentiff/src/decode.rs:440-450 | Every blob begins with II, 42 and 8 little-endian, or MM, 42 and 8 big-endian, byte for byte. |
| `TiffReader.TooManyEntriesAreLost` | zentiff/src/decode.rs:455-456 | With 65536 entries or more no reader recovers them all, because the count is narrowed to 16 bits. |
| `TiffReader.DataTiles` | zentiff/src/decode.rs:460-461 | The directory is exactly as long as the writer assumes, and the entries' data tile the rest of the blob, each its own. |
| `TiffReader.WordsIffOddLast` | zentiff/src/decode.rs:461-640 | Every offset is on a word boundary exactly when no value with an odd number of bytes outside its entry is followed by another outside its entry. |
| `TiffReader.OffWordExample` | zentiff/src/decode.rs:521-536 | A four-letter text before a fraction puts the fraction at an odd offset. |
| `TiffReader.ReadExifBytes` | zentiff/src/decode.rs:402-409 | The caller's sort is stable, and the blob's reader gets every found tag back with tags ascending. |
| `TiffUnpack.ReadSample` | zentiff/src/decode.rs:1338-1350 | A sample is exactly its bits, most significant first, also when it spans two bytes. |
| `TiffUnpack.CheckPackedLen` | zentiff/src/decode.rs:1294-1308 | Accepts exactly when every padded row is there and the size does not overflow. |
| `TiffUnpack.UnpackPaletteIndices` | zentiff/src/decode.rs:1965-2006 | Unpacks every row, or fails exactly as the length check does. |
| `TiffUnpack.UnpackSubbyte` | zentiff/src/decode.rs:1312-1363 | The same samples, each scaled. |
| `TiffUnpack.UnpackInvertsPack` | zentiff/src/decode.rs:1965-2006 | A buffer holds rows of samples exactly when unpacking gives those rows, for every width, height, depth and padding. |
| `TiffUnpack.ScaleLaws` | zentiff/src/decode.rs:1325-1356 | The scale is strictly increasing, takes 0 to 0 and the largest sample to 255. |
| `TiffUnpack.ScaleIsFloor` | zentiff/src/decode.rs:1325-1356 | A scaled sample is 255 times the sample over the largest, rounded down. |
| `TiffUnpack.MaxSampleIsAllOnes` | zentiff/src/decode.rs:1325-1326 | The largest sample has all bits set. |
| `TiffUnpack.InterleavePlanes` | zentiff/src/decode.rs:1370-1455 | Plane after plane becomes pixel after pixel; too little data is passed through. |
| `Planes.InterleavedAt` | zentiff/src/decode.rs:1402-1406 | Every output sample is the one its pixel and plane name. |
| `Planes.InterleaveTransposes` | zentiff/src/decode.rs:1402-1406 | Interleaving is a transposition and loses nothing: de-interleaving gives the planes back. |
| `PsdPackBits.DecodePackBitsRow` | zenpsd/src/parser.rs:852-905 | Writes the scanline's expansion in place and nothing outside it, or fails as the reference does. |
| `PsdPackBits.AcceptedIffUnpacks` | zenpsd/src/parser.rs:852-905 | A scanline is accepted exactly when some prefix of the source is a token sequence (section 9 of TIFF 6.0) that expands to exactly its length, and becomes that expansion. |
| `PsdPlanes.SumTable` | zenpsd/src/parser.rs:778-787 | The table's sum, or failure exactly when it overflows. |
| `PsdPlanes.DecodeRlePlanes` | zenpsd/src/parser.rs:762-808 | Every slice is in bounds once the sum is, the buffer ends as the used rows' expansions one after another, and the bytes consumed are the table and all scanlines. |
| `PsdPlanes.RowAt` | zenpsd/src/parser.rs:795-806 | Each row of the buffer, where the rows before it end, is the expansion of its own slice. |
| `PsdPlanes.RowsLength` | zenpsd/src/parser.rs:803 | So row n begins at n times the row length. |
| `PsdPlanes.HeldTableIsRead` | zenpsd/src/parser.rs:762-806 | A table that holds lengths, two bytes each or four in the large format, is read as them, and the scanlines begin behind it. |
| `PsdPredictor.SumsOfDifferences` | zenpsd/src/parser.rs:986-1001 | Running sums undo differences, at any wrap-around. |
| `PsdPredictor.DifferencesOfSums` | zenpsd/src/parser.rs:986-1001 | And differences undo running sums. |
| `PsdPredictor.SumBytes` | zenpsd/src/parser.rs:987-992 | A scanline's bytes are added up in place. |
| `PsdPredictor.SumWords` | zenpsd/src/parser.rs:994-1003 | A scanline's big-endian words are added up in place. |
| `PsdPredictor.GatherBytes` | zenpsd/src/parser.rs:1017-1023 | Four byte planes of a scanline become pixels in place. |
| `PsdPredictor.ApplyZipPrediction` | zenpsd/src/parser.rs:979-1030 | The plane is undone scanline by scanline, in place, each row on its own. |
| `PsdPredictor.UndoneInverse` | zenpsd/src/parser.rs:979-1030 | At 1, 8, 16 and 32 bits undoing is a two-sided inverse of predicting, so it is a bijection on planes. |
| `PsdZip.Inflater.Decompress` | zenpsd/src/parser.rs:938-956 | The inflater's contract: any progress it likes, only ever the streams' own next bytes, inside the space it was given. |
| `PsdZip.DecompressZipPlanes` | zenpsd/src/parser.rs:909-976 | A success is the first planes of all the streams' output, however it is split, and the position is what the inflater took; a live inflater on streams that end on channel boundaries always succeeds; and the loop ends even when a stream's end is reported by a call that took and gave nothing. |
| `PsdHeader.HeaderIsAccepted` | zenpsd/src/parser.rs:430-500 | An accepted header has a supported mode and depth, enough channels and dimensions in range. |
| `PsdHeader.HeldHeaderIsParsed` | zenpsd/src/parser.rs:430-500 | A header in the bytes, signature, version, reserved bytes, channels, height, width, depth and mode big-endian in this order, parses to just those values exactly when the format allows them. |
| `PsdHeader.ParsedHeaderIsHeld` | zenpsd/src/parser.rs:430-500 | And every header that parses is in the bytes. |
| `PsdHeader.HeaderRefusals` | zenpsd/src/parser.rs:430-500 | Which error a header in the bytes is refused with: version, dimensions and channels, depth, mode, then the pair or the missing channels. |
| `PsdHeader.NoHeader` | zenpsd/src/parser.rs:430-440 | Bytes that are no header: too few, or another signature. |
| `PsdHeader.AlphaIs` | zenpsd/src/parser.rs:240-247 | The output has alpha exactly when an index is transparent, or gray has 2 channels, RGB 4 or CMYK 5. |
| `PsdInterleave.AcceptedHasArm` | zenpsd/src/parser.rs:1054-1384 | Every accepted header has its case in the match on mode, depth and alpha, so the fallthrough error is never reached. |
| `PsdInterleave.ArmsBeyondAccepted` | zenpsd/src/parser.rs:1054-1384 | The match has a case exactly for the modes and depths the header check lets through, and for duotone of 16 and 32 bits. |
| `PsdInterleave.ArmFits` | zenpsd/src/parser.rs:1054-1384 | A case reads exactly the used channels, in samples that fill their planes, and writes pixels as long as the output descriptor says. |
| `PsdInterleave.SampleFits` | zenpsd/src/parser.rs:1033-1389 | Every sample a case reads lies inside its plane, below the planes the decoder read. |
| `PsdInterleave.LightIsNearest` | zenpsd/src/parser.rs:1294-1380 | A CMYK output is in range and strictly nearest to ink times black over 255 or 65535. |
| `PsdInterleave.PixelAt` | zenpsd/src/parser.rs:1054-1384 | Every case's pixel has exactly the bytes of its numbers. |
| `PsdInterleave.PixelMeans` | zenpsd/src/parser.rs:1054-1384 | Every number of every pixel, at every depth, is the stored sample of its channel, its palette entry, its transparency, its light or its bit. |
| `PsdInterleave.OutputMeans` | zenpsd/src/parser.rs:1054-1384 | And lies at the index its pixel, its row and its place in the pixel give. |
| `PsdInterleave.InterleavePlanes` | zenpsd/src/parser.rs:1033-1389 | Succeeds exactly when the match has a case and an indexed image has its palette, with the match's own errors otherwise; the output is every pixel's bytes at its own index. |
| `PsdInterleave.PixelsKeepPlanes` | zenpsd/src/parser.rs:1068-1082 | Eight-bit gray and color output is a transposition of the planes, which can be read back. |
| `PsdInterleave.SampleIsShown` | zenpsd/src/parser.rs:1068-1300 | At every depth gray and color output shows every stored sample. |
| `PsdInterleave.PictureTellsPlanes` | zenpsd/src/parser.rs:1068-1300 | So two images that differ only in their planes look different. |
| `PsdMerged.SizesFit` | zenpsd/src/parser.rs:733-744 | No size computed from an accepted header's dimensions overflows 64 bits, so the overflow errors cannot happen. |
| `PsdMerged.UndoPlanes` | zenpsd/src/parser.rs:824-827 | The prediction is undone in each used plane of the one buffer. |
| `PsdMerged.PlanesUndone` | zenpsd/src/parser.rs:824-827 | Undoing the first planes of a predicted image gives those planes, whatever the channels after them. |
| `PsdMerged.ReadPlanes` | zenpsd/src/parser.rs:750-833 | Each of the four compressions is read exactly when it can be, and a live inflater never fails a well-split payload. |
| `PsdMerged.DecodeMergedImage` | zenpsd/src/parser.rs:721-849 | Fails exactly when the section cannot be read, given an inflater that does its part, and otherwise gives every pixel of the image and where the image data stops, which for zlib is what the inflater took. |
| `PsdMerged.StoredIsRead` | zenpsd/src/parser.rs:750-833 | Planes stored raw, as any PackBits tokens, or as any split of zlib streams, predicted or not, are read back: the same used planes whatever the compression. |
| `PsdMerged.PictureKeepsPlanes` | zenpsd/src/parser.rs:721-849 | So eight-bit gray and color planes come back from the decoded pixels whatever the compression. |
| `PsdMerged.SamePictureSamePlanes` | zenpsd/src/parser.rs:721-849 | At every depth, two files that show the same gray or color picture store the same used planes, however each compresses them. |
| `PsdResources.ParseImageResources` | zenpsd/src/parser.rs:611-717 | Fails exactly when the section is not whole blocks, and otherwise keeps what the blocks in order leave. |
| `PsdResources.BlocksTile` | zenpsd/src/parser.rs:611-716 | The blocks tile the section. |
| `PsdResources.StoredBlocksAreFound` | zenpsd/src/parser.rs:611-717 | Blocks written one after another, signature, id, padded name, length, payload and padding, are exactly the blocks found. |
| `PsdResources.FoundBlockIsStored` | zenpsd/src/parser.rs:611-650 | And every block that is found is in the bytes. |
| `PsdResources.ParserKeepsIcc` | zenpsd/src/parser.rs:693-695 | The parser keeps the last non-empty ICC block. |
| `PsdResources.ParserKeepsXmp` | zenpsd/src/parser.rs:709-711 | And the last non-empty XMP block. |
| `PsdResources.ParserKeepsTransparency` | zenpsd/src/parser.rs:696-698 | And the index of the last transparency block of at least two bytes. |
| `PsdResources.ParserKeepsExif` | zenpsd/src/parser.rs:703-708 | For EXIF, the last non-empty 0x0422 block or else the first non-empty 0x0423 block. |
| `PsdResources.ExifAgreesIff` | zenpsd/src/inventory.rs:345-354 | The inventory names the parser's EXIF block exactly when some 0x0422 block is non-empty or at most one 0x0423 block is. |
| `PsdResources.ExifDisagreesExample` | zenpsd/src/inventory.rs:345-354 | Two one-byte 0x0423 blocks: the parser keeps the first, the inventory names the second. |
| `PsdResources.FindBlocks` | zenpsd/src/inventory.rs:301-354 | The unchecked walk finds exactly the parser's blocks without looking out of bounds, and each kind's last block. |
| `PsdLayout.ParsedIsValid` | zenpsd/src/parser.rs:502-601 | A parsed layout's sections are in order and inside the file, and its resources are whole blocks. |
| `PsdLayout.HeldSectionsAreParsed` | zenpsd/src/parser.rs:502-601 | Sections in the bytes, each behind its 32-bit length, or 64-bit for the layers of a PSB, are parsed as just those, or refused for their color data, their resources or their compression. |
| `PsdLayout.ParsedSectionsAreHeld` | zenpsd/src/parser.rs:502-601 | And the sections of a layout that parses are in the bytes. |
| `PsdLayout.LayoutRefusals` | zenpsd/src/parser.rs:502-601 | Which error sections are refused with, length by length: where the file breaks off, wrong color data, resources that are no blocks, and layers past 2^64 bytes. |
| `PsdInventory.KeptIsMarked` | zenpsd/src/inventory.rs:356-410 | What the parser kept of ICC, XMP and, when the walks agree, EXIF is marked whenever the file was decoded and the caller wants it. |
| `PsdInventory.MarkedIsKept` | zenpsd/src/inventory.rs:356-425 | A payload marked as kept metadata is the very one the parser kept, for 0x0423 when the two walks agree; so is a transparency index marked structure. |
| `PsdInventory.TransparencyIsMarked` | zenpsd/src/inventory.rs:407-425 | The transparency index the decoder uses is marked structure. |
| `PsdInventory.PayloadIs` | zenpsd/src/inventory.rs:356-425 | The fate of every payload by its id, exactly: the last non-empty block of an id that is wanted, the last transparency block that names an index, and nothing else is kept; ids that are not read are passed over. |
| `PsdInventory.MapImageResources` | zenpsd/src/inventory.rs:273-499 | Records the section, its length and every block with its header, payload and padding, each with its disposition; blocks tile the section and are tiled. |
| `PsdInventory.AddBlocks` | zenpsd/src/inventory.rs:356-497 | Every block of the parser's, in order, with its parts. |
| `PsdInventory.BlockIs` | zenpsd/src/inventory.rs:427-497 | Exactly the parts of one block: its own, structure if it is read, and in it its header, its payload with its fate and its padding, as far as they are not empty. |
| `PsdInventory.MapRle` | zenpsd/src/inventory.rs:590-655 | The second reading of the table is in bounds, and the pieces are cut exactly where the table and the scanlines of the used channels end. |
| `PsdInventory.RlePiecesAre` | zenpsd/src/inventory.rs:590-655 | Entries and lengths in the bytes say where the pieces end: the table is structure, the used channels' scanlines image data, the others' dropped. |
| `PsdInventory.RawPieceIs` | zenpsd/src/inventory.rs:560-590 | A raw channel takes its own bytes and is image data exactly when it is used. |
| `PsdInventory.UsedScanlinesAreImageData` | zenpsd/src/inventory.rs:620-655 | What is marked image data is, scanline after scanline, exactly what the decoder expands. |
| `PsdInventory.MapImageData` | zenpsd/src/inventory.rs:501-677 | Records exactly the compression code and the pieces of the image data, each with its disposition: channels, table and scanlines, the zlib streams, or the malformed rest; they tile the section up to where decoding stopped. |
| `PsdInventory.MapFront` | zenpsd/src/inventory.rs:83-228 | The header, color mode data and resources sections: exactly their parts, the reserved bytes and the palette with their own dispositions. |
| `PsdInventory.PartsOfPieces` | zenpsd/src/inventory.rs:710-745 | Exactly the pieces that are not empty are recorded, each from where the one before it ends. |
| `PsdInventory.MapLayers` | zenpsd/src/inventory.rs:229-263 | The layer and mask section: its length, and its bytes, which are skipped. |
| `PsdInventory.MapFile` | zenpsd/src/inventory.rs:80-270 | The map is exactly the parts of the five sections, in file order from byte 0 to where decoding stopped, and the trailing rest; the sections alone are at top level, each with its range and disposition; each of them and each resource block is tiled by what lies in it. |
| `Jp2Boxes.BoxAdvances` | zenjp2/src/inventory.rs:91-125 | An accepted box starts where it was read, advances by at least its header and ends inside its range. |
| `Jp2Boxes.BoxesTile` | zenjp2/src/inventory.rs:434-454 | Boxes and the malformed rest tile their range, and there is a rest exactly when some bytes are no box. |
| `Jp2Boxes.BoxOf` | zenjp2/src/inventory.rs:399-422 | Every box is what is read at its start, and only the last can be truncated. |
| `Jp2Boxes.HeldBoxIsRead` | zenjp2/src/inventory.rs:91-125 | A box in the bytes is read as that box: a 32-bit length and a type, a 64-bit length behind a 1, or a 0 and the rest of the range; past the limit it is truncated there. |
| `Jp2Boxes.ReadBoxIsHeld` | zenjp2/src/inventory.rs:91-125 | And every box that is read is in the bytes. |
| `Jp2Boxes.NoBoxIsHeld` | zenjp2/src/inventory.rs:91-125 | Bytes that are no box have too few for a header, or a length that no box has. |
| `Jp2Boxes.WrittenBoxesAreFound` | zenjp2/src/inventory.rs:91-125 | Boxes written one after another, in any of the three forms, are exactly the boxes found, with nothing left over. |
| `Jp2Boxes.ExactlyLastWins` | zenjp2/src/inventory.rs:399-422 | Of the complete boxes of a type, exactly the last starts at the winner's position. |
| `Jp2Header.ParseCdef` | zenjp2/src/inventory.rs:258-291 | Reads as the reference reads: accepted exactly when each channel from 0 up is defined once, all usably, with the last channel's opacity. |
| `Jp2Header.SortsToIota` | zenjp2/src/inventory.rs:280-283 | The sort-and-compare test passes exactly when the indices are a permutation. |
| `Jp2Header.ParseCmap` | zenjp2/src/inventory.rs:294-296 | Accepts exactly whole entries with a mapping type of 0 or 1. |
| `Jp2HeaderBytes.EnumeratedIsParsed` | zenjp2/src/inventory.rs:202-236 | A colr of method 1 gives the number of a listed space, and of CIELab up to seven numbers more. |
| `Jp2HeaderBytes.ProfileIsParsed` | zenjp2/src/inventory.rs:202-236 | A colr of method 2 gives the channels of the color space its profile names. |
| `Jp2HeaderBytes.PaletteIsParsed` | zenjp2/src/inventory.rs:239-256 | A palette is accepted exactly when it has rows, columns and all its bytes, each column as wide as its bits need. |
| `Jp2HeaderBytes.DefinitionsAreParsed` | zenjp2/src/inventory.rs:258-291 | Channel definitions in the bytes are accepted exactly when there are some, their types are 0 or 1, none is 65535, and each channel is defined once. |
| `Jp2HeaderBytes.MappingsAreChecked` | zenjp2/src/inventory.rs:294-296 | Every third byte of four is 0 or 1. |
| `Jp2Header.ScanJp2h` | zenjp2/src/inventory.rs:701-747 | The first pass is the fold over the complete boxes, up to the first that aborts. |
| `Jp2Header.ScanWinners` | zenjp2/src/inventory.rs:701-747 | The winners are the first valid colr and the last valid pclr, cdef and cmap of the boxes parsed before any that aborts. |
| `Jp2HeaderBytes.ScanFinds` | zenjp2/src/inventory.rs:701-747 | The first pass stops at exactly the first cmap, or colr before any valid one, that does not parse, and what it finds is what the boxes before it say. |
| `Jp2HeaderBytes.ChildIsJudged` | zenjp2/src/inventory.rs:750-865 | What every complete child of a header comes to, by its type, its bytes and its rivals. |
| `Jp2HeaderBytes.FindingsSay` | zenjp2/src/inventory.rs:701-747 | What is kept of the winners is what their payloads say. |
| `Jp2Header.ProfileIsKeptIff` | zenjp2/src/inventory.rs:963-1073 | An embedded profile is kept exactly when its color space is known and there is no codestream to compare it with, or a palette, or its channels are all the components but an alpha. |
| `Jp2Header.ColrFailsIff` | zenjp2/src/inventory.rs:963-1073 | The decode fails at a colr exactly when there is a codestream, and its enumerated space is unsupported, or its channels do not fit components that are taken for nothing: none, two without alpha, or more than four. |
| `Jp2Header.EnumeratedIsKeptIff` | zenjp2/src/inventory.rs:963-1073 | An enumerated space is kept exactly when there is no codestream, its channels fit the components, these are taken for it, or it is YCCK, Lab or sYCC and they are taken for any. |
| `Jp2Header.OneOfEachConsumed` | zenjp2/src/inventory.rs:791-865 | Two boxes of one type that are both consumed are the same box. |
| `Jp2Walk.Walker.WalkChildren` | zenjp2/src/inventory.rs:662-697 | Records exactly the boxes of a body, classified, and they tile it with the malformed rest. |
| `Jp2Walk.Walker.WalkAsoc` | zenjp2/src/inventory.rs:632-650 | The boxes of an association are recorded and tile it, and so are those of every association among them, down to the fixed depth and no deeper. |
| `Jp2Walk.Walker.HeaderChild` | zenjp2/src/inventory.rs:770-925 | One header child: its disposition, and what is read of it, with its own disposition, and what is not tile its payload; the boxes of a resolution child are recorded. |
| `Jp2Walk.Walker.WalkJp2h` | zenjp2/src/inventory.rs:750-930 | The children tile the body; each has exactly the disposition that the first pass, the codestream used, the header's own palette and channel definitions and the children before it settle; at most one colr, pclr, cdef and cmap is consumed; and the decode dies exactly at a child that aborts it or at bytes that are no box. |
| `Jp2Walk.Walker.ScanTopLevel` | zenjp2/src/inventory.rs:399-432 | Finds the last complete jp2h and jp2c, and the component count of the latter. |
| `Jp2Walk.CsizIsTheLast` | zenjp2/src/inventory.rs:399-432 | The components that color is compared with are those of the last complete codestream box, when it opens with SOC and SIZ. |
| `Jp2Fates.CsizIsRead` | zenjp2/src/inventory.rs:425-432 | And they are the two bytes at offset 40 of a codestream that opens with SOC and SIZ. |
| `Jp2Fates.TopIs` | zenjp2/src/inventory.rs:476-587 | What every top-level box comes to, by its type and place: each read once, superseded ones dropped, known ones passed over, free padding, truncated malformed. |
| `Jp2Fates.SkippedAreSpelled` | zenjp2/src/inventory.rs:520-556 | The twenty known types that are passed over, as text. |
| `Jp2Fates.FailsAt` | zenjp2/src/inventory.rs:750-930 | The decode fails at exactly the child that ends the first pass, and at a first valid colr that does not suit the codestream. |
| `Jp2Walk.Walker.TopLevelBox` | zenjp2/src/inventory.rs:456-629 | One top-level box: its exact disposition, what lies in it, and whether the decode dies there. |
| `Jp2Walk.Walker.WalkJp2` | zenjp2/src/inventory.rs:434-454 | Top-level boxes and the malformed rest tile the file; every box has exactly the disposition that its place, its rivals and the boxes before it settle; the winners of every header and the associations at every depth are those of the finished map. |
| `Jp2Walk.OnlyLastIsKept` | zenjp2/src/inventory.rs:399-422 | Of the complete jp2h boxes, and of the complete jp2c boxes, every one but the last is dropped, and the last is kept exactly when no box before it fails the decode. |

## Left out

- Labels, detail strings, attributes and excerpts of inventory parts, and the mapping of errors to categories.
- Stop and pulse polling, resource limits, part caps and allocation failures: every modelled call runs to its end.
- EXR header attributes, the recording of offset tables, `Levels` and level labels, and the trailing fill: the walk is
  modelled from the end of the tables to the end of the last chunk.
- EXR block geometry, tile coordinates and the inflater are upstream code: parameters of `ExrChunk.File` and the reply
  functions of `ExrZlib`.
- ExrWalk.Walk: files shorter than 2^63 bytes, because the source's slices are, and one part without deep data when
  chunks are read, because the decoder refuses the others first (zenexr/src/lib.rs:256-263).
- PIZ Huffman codes and wavelet data after the framing.
- IVF consumed-byte counts, track information, the allocation of packets and the access pattern.
- Whether `TimeBase`, an upstream type, keeps a time base as it is written or in lowest terms: the model keeps it as
  written, every result holds for any base, and `IvfPick.ReducingKeepsOptimum` says that the optimum is the same.
- TiffExif.SerializeExifIfd: texts and lists shorter than 2^32 - 1, so that narrowing their lengths to 32 bits is exact;
  offsets and the entry count are narrowed as the source narrows them.
- TiffReader.BlobReads: lists whose items are of different kinds, which the writer counts in full but writes in part.
- Reading tags through the TIFF decoder, and descriptor, channel and color conversion after unpacking.
- TiffUnpack.UnpackSubbyte: depths 1 to 7, the only ones its caller passes; products of dimensions that overflow 64 bits
  are caught only by the length check.
- `interleave_planes` of TIFF passes sample types other than 8, 16 and 32-bit integers through unchanged.
- PsdMerged.DecodeMergedImage: the transparency index is a parameter; `PsdResources.ParserKeepsTransparency` says which
  one the parser hands over.
- PSD resolution, alpha names and version information, what strict mode and limits refuse, and the map of a file whose
  header fails.
- PsdInterleave.InterleavePlanes: gray planes without alpha are painted pixel by pixel; the source copies them whole.
- The JP2 codestream and packet walks: what they record inside `jp2c` is not modelled, and whether they fail the decode
  is a parameter; the detection of XMP and UUID kinds.
- YCbCr, Lab and floating-point color conversion anywhere in the workspace.
