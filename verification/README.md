# MCU Malloc Tracker: a verified model

This project models, in Dafny, the pipeline of MCU Malloc Tracker from a live heap to a decoded report, and proves
properties of that model.

- **The tracker** (`AllocTable`, `TrackerState`, `TrackerRuns`, `CallLaws`, `Tracker`): an open-addressed table with linear probing,
  tombstones and drop-on-full, driven by malloc, free and realloc against an allocator the tracker does not control.
  `Tracker.Tracker` is the imperative object, one array changed in place; `TrackerRuns` says what every run of calls
  leaves, beside a map of the blocks that are really live.
- **The call-site tables** (`KeyHistory`, `Hotspots`, `HotspotDump`, `ViewerModel`): tables on the device and in the
  viewer that must equal counts over everything ever reported to them.
- **The codecs** (`Words`, `Crc32`, `Crc32Values`, `ByteWriter`, `Mts1Format`, `Snapshot`, `Mts1Decoder`, `Frames`,
  `FrameReader`, `Replay`, `ReplayLaws`): sort, truncate, serialise, checksum and frame; scan for the magic, resynchronise, verify and decode, in the
  C viewer and in the Python decoder.
- **`EndToEnd`** joins them; **`Fragmentation`** is the fixed-point heap metric.

`dafny verify dfyconfig.toml` checks the whole project.

## How the model is laid out

An object whose methods change fields is a class, and a loop is a loop. Each such method is tied to a function
(`MallocCore`, `ReadFrame`, `SnapshotBytes`, ...) and what the program promises is proved about that function. Registers and
fields are unsigned integers with their width written out: `c >> 1` is `c / 2`, `c & 1` is `c % 2`, a cast to 32 bits is
`% TWO_32`, `^` is `Crc32.Xor` and `&` is `Words.And`, both defined bit by bit. The answers of the real allocator, the
platform's heap walk, the byte count reported by the transmit callback and the hash of the file name are parameters. The
pointer hash is any function and the table size any power of two.

A run is a sequence of events. It is legal when the allocator never answers with a live address and the client passes on
only NULL, live blocks, or a repeated free that the tracker swallows.

Where the code and its documentation disagree the model follows the code: the wire sizes are 36 and 24 bytes
(docs/KNOWN_LIMITS.md:250 and docs/MTV1_STREAM.md:26 say 40 and 28); a second `mt_init` does nothing
(docs/KNOWN_LIMITS.md:77 recommends it as a reset); the health field has two bits (src/mt_fragmentation.c:106 says three);
the accessor for tombstones (include/mt_internal.h:63) does not return their number once malloc has reused one; the "top
N" hotspots of the viewer (tools/mt_viewer_c/src/mtv1_model.c:146-168) are the first N found.

Results that hold only on a condition are stated with the exact one: `TrackerRuns.DropsIffOverCapacity`,
`TrackerRuns.RepeatedFree`, `TrackerRuns.InPlaceSizeIff`, `TrackerRuns.InPlaceBytesIff`, `Snapshot.CollectedExactIff`,
`Snapshot.ListingExactIff`, `Snapshot.CanonicalIff`, `EndToEnd.LayoutIndependentIff`, `Snapshot.OverflowExactIff`,
`HotspotDump.DumpExactIff`, `HotspotDump.DumpCanonicalIff`, `Mts1Decoder.VerdictsAgreeIff`, `FrameReader.LocksOnIff`,
`FrameReader.StreamLocksIff`, `Fragmentation.CalcExactIff`, `Fragmentation.CalcAntitoneIff`, `ViewerModel.TopIffAllFit`;
the failing inputs are `TrackerRuns.RecyclingExample`, `TrackerRuns.TruncationExample`, `EndToEnd.LateSlotExample`,
`EndToEnd.LayoutExample`, `HotspotDump.DumpMissesSite`, `FrameReader.StrayMagicSwallows`,
`Fragmentation.CalcWrapExample`, `ViewerModel.TopMissesHeavier`, `Mts1Decoder.TrailingByteSplits` and
`Crc32.BurstOf33Undetected`.

The leak dump (src/mt_dump.c:196-236) collects and sorts the same 16-bit indices as the snapshot; `Snapshot.SortUsed` and
`Snapshot.ListingExactIff` hold of both.

## Model

| member | source | states |
|---|---|---|
| `TrackerRuns.TableRefinesHeap` | src/mt_core.c:233-510 | in every legal run the USED records name live blocks, each once, with its size, call site and sequence number in numbers (size and line held at the nearest value that fits, an in-place resize keeping the low 32 bits), and name all of them until something is dropped |
| `CallLaws.TableTellsCalls` | src/mt_core.c:233-510 | the records against the calls alone: a record shows the size its block was last given, when it fits 32 bits; in a run without drops the exact size in any case, and the file and line of the malloc that first gave the block out (0 below 0, 65535 above), for every block the client holds |
| `CallLaws.HeapFollowsCalls` | src/mt_core.c:233-510 | the blocks really out are those the calls granted, with the size last asked for, and until something is dropped with their first call site |
| `TrackerRuns.StepKeepsInv` | src/mt_core.c:233-510 | every legal call keeps the table, heap, counter and byte invariants |
| `TrackerRuns.EachBlockReturnedOnce` | src/mt_core.c:331-384 | over every legal run the blocks still out are those the client, by its calls alone, still holds, and the allocator got back exactly the blocks the client gave up, as often as it did: nothing freed or moved away from is swallowed, and nothing is forwarded twice |
| `TrackerRuns.StepClient` | src/mt_core.c:331-510 | one legal call changes the blocks out and the blocks returned exactly as the client asked |
| `TrackerRuns.FreeForwardsLive` | src/mt_core.c:355-383 | freeing a live block forwards it once and ends its life; any other legal free changes nothing |
| `TrackerRuns.ForwardsIffLive` | src/mt_core.c:355-383 | among legal frees exactly those of live blocks reach the allocator, so the tombstone scan never swallows a live block |
| `TrackerRuns.DoubleFreeSwallowed` | src/mt_core.c:369-377 | freeing a tracked block again with no insertion in between forwards nothing |
| `TrackerRuns.RepeatedFree` | src/mt_core.c:369-383 | a dead block's free is forwarded exactly when every slot it was ever taken out of has been written into again |
| `TrackerRuns.GravesAre` | src/mt_core.c:183-192 | the tombstones bearing an address are the slots the history took it out of and has not refilled |
| `TrackerRuns.RecyclingExample` | src/mt_core.c:303-316 | malloc reusing a tombstone leaves the tombstone counter one too high and lets a double free through |
| `TrackerRuns.DropsIffOverCapacity` | src/mt_core.c:291-301 | a run has dropped something exactly when more than N blocks were once live together |
| `TrackerRuns.StepDrops` | src/mt_core.c:287-301 | a call drops exactly when it allocates while every slot is USED; tombstones never cause a drop |
| `TrackerRuns.MovedCore` | src/mt_core.c:451-480 | a moved tracked block always gets a record, so the fall-through at line 506 is not reached from there |
| `TrackerRuns.CountersConserved` | src/mt_core.c:183-192 | used count is the number of USED slots and allocs plus adoptions less frees; tombstone count exceeds the tombstones by the mallocs that reused one; sequence numbers are distinct and below the next |
| `CallLaws.EventsCounted` | src/mt_core.c:233-510 | allocs and drops together are the successful mallocs, frees the frees that took a record out, reallocs the successful ones that left a record, and the next sequence number one more than allocs and reallocs |
| `CallLaws.CallsCounted` | src/mt_core.c:233-510 | in a run without drops the counters are counts over the calls alone |
| `CallLaws.FailedReallocIdle` | src/mt_core.c:420-424 | a realloc that fails leaves everything as it was |
| `TrackerRuns.ReinsertTallied` | src/mt_core.c:465-468 | the positive-counter guard never keeps the tombstone counter from following the table |
| `TrackerRuns.BytesAccounted` | src/mt_core.c:74-94 | the saturating byte counter never exceeds the recorded sizes, and equals them while their sum has not passed UINT32_MAX, outside in-place resizes that cut a size |
| `TrackerRuns.BytesExact` | src/mt_core.c:74-94 | the same said of the calls: with realloc sizes of 32 bits the counter never exceeds the recorded sizes, and equals them unless their sum has passed UINT32_MAX at some prefix of the run |
| `TrackerRuns.OverflowedIff` | src/mt_core.c:74-94 | the overflow flag of the model stands exactly when the recorded sizes have summed to more than UINT32_MAX at some prefix of the run |
| `TrackerRuns.ResizeLaw` | src/mt_core.c:437-443 | adjusting the counter by the change of one record follows the sum from below, exactly below saturation |
| `TrackerRuns.PeakIsMaximum` | src/mt_core.c:82-84 | the peak is the largest value the byte counter has had over the whole run |
| `CallLaws.PeakExact` | src/mt_core.c:74-94 | with 32-bit realloc sizes the peak is the largest sum of recorded sizes the run has seen, held at 4294967295: the counter saturates and never wraps |
| `CallLaws.StepSaturates` | src/mt_core.c:74-85 | the step on which the recorded sizes first pass 32 bits leaves the byte counter at 4294967295 |
| `TrackerRuns.InPlaceSizeIff` | src/mt_core.c:437-438 | an in-place resize stores the clamped size exactly when the request fits 32 bits or cuts to the clamp |
| `TrackerRuns.InPlaceBytesIff` | src/mt_core.c:437-443 | the exact condition under which an in-place resize keeps the byte counter within the recorded sizes |
| `TrackerRuns.TruncationExample` | src/mt_core.c:437-443 | resizing in place to 4 GiB records size zero with the byte counter at its top |
| `TrackerRuns.CallsReported` | src/mt_core.c:291-319 | every successful malloc, tracked or dropped, is reported once, in order, with its own file, line (0 below 0, 65535 above) and low 32 bits of its size |
| `CallLaws.ReportStamped` | src/mt_core.c:288-319 | the report bears the sequence number next due, the one the record of the block gets |
| `AllocTable.InsertIsFirstFree` | src/mt_core.c:142-176 | the tombstone-first scan picks the first slot in probe order that is not USED |
| `AllocTable.InsertFailsIffFull` | src/mt_core.c:142-176 | no slot is found exactly when all are USED |
| `AllocTable.InsertKeeps` | src/mt_core.c:303-310 | inserting keeps pointers distinct and every record's probe chain free of EMPTY slots |
| `AllocTable.ProbeMisses` | src/mt_core.c:107-133 | a probe that stopped at an EMPTY slot, or went round, leaves the pointer nowhere in the table |
| `Tracker.Tracker.FindSlot` | src/mt_core.c:107-133 | probing succeeds exactly when some USED slot holds the pointer, full table or not, and returns that slot |
| `Tracker.Tracker.FindInsertSlot` | src/mt_core.c:142-176 | the one-pass scan returns the slot the insertion policy names |
| `Tracker.Tracker.NextIndex` | src/mt_core.c:128 | masking with N-1 steps to the next slot, round the end |
| `Tracker.Tracker.Init` | src/mt_core.c:198-227 | the first call establishes the initial state, a later one changes nothing |
| `Tracker.Tracker.Malloc` | src/mt_core.c:233-325 | array, counters and hotspot table become those specified for the run extended by this call |
| `Tracker.Tracker.Free` | src/mt_core.c:331-384 | as above; the pointer is forwarded exactly when it is a block the client holds by its calls so far |
| `Tracker.Tracker.Realloc` | src/mt_core.c:390-510 | as above, for the null, zero, failed, in-place, moved and untracked cases |
| `Tracker.Tracker.SlotFree` | src/mt_core.c:183-192 | a USED slot becomes a tombstone and both counters move by one |
| `Words.MaskIsMod` | src/mt_core.c:109-111 | and-ing with a power of two less one takes the remainder |
| `Words.Read32` | tools/mt_viewer_c/src/mtv1_util.c:11-16 | reading a written 32-bit value gives it back |
| `Words.Read64` | tools/mt_viewer_c/src/mtv1_util.c:18-27 | reading a written 64-bit value gives it back |
| `Words.Written32` | src/mt_snapshot.c:32-38 | writing a read 32-bit value restores its bytes |
| `Words.Written64` | src/mt_snapshot.c:40-51 | writing a read 64-bit value restores its bytes |
| `Words.LittleEndian` | src/mt_snapshot.c:26-51 | the byte order by example, for writers and readers |
| `Crc32.Update` | src/mt_crc32_ieee.c:17-36 | the byte and bit loops compute the register that results from feeding the message one bit at a time |
| `Crc32.Full` | src/mt_crc32_ieee.c:42-48 | seed, update and final inversion give the checksum |
| `Crc32Values.Residue` | src/mt_crc32_ieee.c:17-48 | every message followed by its own checksum, least significant byte first, leaves the register at 0xDEBB20E3, the residue of the standard |
| `Crc32Values.GeneratorSeen` | src/mt_crc32_ieee.c:27-31 | the byte 0x80 from a zero register leaves the generator 0xEDB88320 |
| `Crc32.Chaining` | src/mt_crc32_ieee.c:15 | passing a raw result on as the next seed checksums the concatenation |
| `Crc32.ClockInjective` | src/mt_crc32_ieee.c:27-31 | the shift step is a bijection of 32-bit registers |
| `Crc32.WindowDetected` | src/mt_crc32_ieee.c:17-36 | messages that differ only inside 32 consecutive bits end in different registers, from every seed |
| `Crc32.BurstDetected` | tools/mt_viewer_c/src/mtv1_crc32.c:6-23 | corruption confined to 32 consecutive bits changes the checksum |
| `Crc32.BurstOf33Undetected` | src/mt_crc32_ieee.c:17-36 | 32 is the exact bound: a 33-bit pattern goes unseen from every seed, anywhere in any message |
| `Sorting.ExchangeSort` | src/mt_dump.c:178-194 | the exchange sort leaves a sorted permutation of the indices, under any strict order |
| `Sorting.AscendingUnique` | src/mt_snapshot.c:72-82 | there is one strictly ascending listing of a set of elements |
| `Snapshot.SortUsed` | src/mt_snapshot.c:63-82 | collecting and sorting lists the records at the collected 16-bit indices by pointer; these are the USED records, by strictly ascending pointer, exactly when none lies past slot 65535 |
| `Snapshot.CollectUsed` | src/mt_snapshot.c:63-70 | the collecting loop stores the slots of the USED records in slot order, each cut to 16 bits |
| `Snapshot.SortedUsedLists` | src/mt_snapshot.c:63-82 | the canonical listing is strictly ascending and holds exactly the USED records |
| `Snapshot.SnapshotCanonical` | src/mt_snapshot.c:104-136 | tables with the same USED records have one canonical listing, and it gives one snapshot |
| `Snapshot.CanonicalIff` | src/mt_snapshot.c:63-136 | tables of n slots with the same USED records give byte-identical snapshots, whatever their slots and tombstones, exactly when n is at most 65536 |
| `EndToEnd.LayoutIndependentIff` | src/mt_snapshot.c:53-139 | the same over reachable trackers: any two runs ending with the same USED records and statistics give byte-identical snapshots exactly when the table has at most 65536 slots |
| `EndToEnd.LayoutExample` | src/mt_snapshot.c:66-70 | in every larger table two short runs leave the same USED record and statistics, one reported as an empty record and one as the block |
| `Snapshot.TruncationExact` | src/mt_snapshot.c:84-94 | output fits the buffer, its records are the prefix of the listed ones, as many as fit, and OVERFLOW is set exactly when listed ones are left out |
| `Snapshot.OverflowExactIff` | src/mt_snapshot.c:84-94 | OVERFLOW tells whether a USED record of the table is missing exactly when no record lies past slot 65535 or the buffer is too short for the listed ones |
| `Snapshot.CollectedExactIff` | src/mt_snapshot.c:66-70 | the 16-bit indices name the USED slots exactly when none lies past 65535 |
| `Snapshot.LateSlotCut` | src/mt_snapshot.c:66-70 | a USED record past slot 65535 is in no snapshot |
| `Snapshot.ListingExactIff` | src/mt_snapshot.c:66-82 | a snapshot lists the USED records by pointer exactly when none lies past slot 65535 |
| `EndToEnd.LateSlotExample` | src/mt_snapshot.c:66-94 | in any table of more than 65536 slots, after one malloc into slot 65536 the snapshot reports one block at address zero, with OVERFLOW clear |
| `Snapshot.Write` | src/mt_snapshot.c:53-139 | for any table the written bytes are the snapshot of the listed records, and nothing beyond them changes |
| `Mts1Format.HeaderRead` | tools/mt_viewer_c/src/mtv1_decode_mts1.c:31-45 | every header field reads back from its place |
| `Mts1Format.RecordsRead` | tools/mt_viewer_c/src/mtv1_decode_mts1.c:64-76 | every record reads back from its place |
| `Mts1Format.HeaderLayout` | src/mt_snapshot.c:104-136 | every header field at its offset, after the bytes of "MTS1" |
| `Mts1Format.RecordLayout` | src/mt_snapshot.c:119-130 | every record field at its offset |
| `Mts1Decoder.ParseSnapshot` | tools/mt_viewer_c/src/mtv1_decode_mts1.c:23-80 | the decoder, in wrapping 32-bit arithmetic, accepts and returns what the specification says |
| `Mts1Decoder.ParseIff` | tools/mt_viewer_c/src/mtv1_decode_mts1.c:23-80 | a payload parses to a snapshot exactly when it extends that snapshot's serialisation |
| `Mts1Decoder.FitsExactly` | tools/mt_viewer_c/src/mtv1_decode_mts1.c:51-57 | the count guard makes the wrapping size check exact |
| `Mts1Decoder.VerifyCrc` | tools/mt_viewer_c/src/mtv1_decode_mts1.c:82-94 | verification recomputes the checksum over all bytes but the checksum field |
| `Mts1Decoder.CorruptionCaught` | tools/mt_viewer_c/src/mtv1_decode_mts1.c:82-94 | corrupting a verified snapshot within 32 consecutive covered bits makes verification fail |
| `Mts1Decoder.PyMain` | tools/mt_decode.py:199-267 | the Python loops compute the specified result |
| `Mts1Decoder.UnpackIs` | tools/mt_decode.py:50-62 | unpacking a slice gives what the viewer's byte readers give |
| `Mts1Decoder.DecodersAgree` | tools/mt_decode.py:219-265 | both decoders accept the same payloads below 2^32 bytes with the same fields, and their checksum verdicts agree when nothing trails |
| `Mts1Decoder.TrailingByteSplits` | tools/mt_decode.py:252-257 | with one more byte Python's result is unchanged while the viewer verifies at most one value of it |
| `Mts1Decoder.VerdictsAgreeIff` | tools/mt_decode.py:252-257 | behind a payload valid to Python that ends with its records, Python's result never changes, and the viewer goes on verifying whatever k bytes follow exactly when k is zero |
| `Frames.Stream.SendFrame` | src/mtv1_stream.c:65-109 | a payload above 512 bytes is refused and changes nothing; otherwise the next number is taken, the frame handed on, and success means all of it was accepted |
| `Frames.Stream.SendSnapshot` | src/mtv1_stream.c:111-118 | the same, as type 1, for snapshots of at least 36 bytes |
| `Frames.SeqCycle` | src/mtv1_stream.c:51-63 | frame numbers run from 1 to UINT32_MAX and start over; zero is never sent |
| `Frames.FrameLayout` | src/mtv1_stream.c:76-101 | every byte of a sent frame: "MTV1", version 1, type, no flags, number, length, the checksum of the frame with its checksum field zeroed, payload |
| `FrameReader.FrameRead` | tools/mt_viewer_c/src/mtv1_protocol.c:7-112 | the reader returns and consumes what the specification says of the remaining bytes |
| `FrameReader.ReadVerdict` | tools/mt_viewer_c/src/mtv1_protocol.c:62-104 | on the wire bytes behind the first magic: an error exactly for a version other than 1, a type above 4 or a payload above 65536 bytes; the end exactly when an acceptable frame is cut off; otherwise a frame with every field from its offset |
| `FrameReader.CutIsEnd` | tools/mt_viewer_c/src/mtv1_protocol.c:27-60 | without the bytes of "MTV1", or with its header cut off, the reader meets the end |
| `FrameReader.FindMagic` | tools/mt_viewer_c/src/mtv1_protocol.c:22-49 | the sliding window stops at the first magic and counts the bytes before it |
| `FrameReader.ConsumesExactly` | tools/mt_viewer_c/src/mtv1_protocol.c:71-111 | an error consumes the skipped bytes and a header, a frame those and its payload |
| `FrameReader.FrameConserved` | tools/mt_viewer_c/src/mtv1_protocol.c:114-129 | an accepted frame re-serialises to its wire bytes and is sound exactly when its stored checksum matches them |
| `FrameReader.FrameCorruptionCaught` | tools/mt_viewer_c/src/mtv1_protocol.c:51-129 | on the wire: a sound frame corrupted within 32 consecutive bits, with its magic, length field and checksum field intact, is still found and read as a bad header or a failed checksum |
| `FrameReader.NoStraddle` | tools/mt_viewer_c/src/mtv1_protocol.c:40-45 | the magic overlaps no shift of itself, so none arises between garbage and frame |
| `FrameReader.StreamRoundTrip` | tools/mt_viewer_c/src/mtv1_protocol.c:7-112 | frames sent between runs of garbage without the magic come back exactly, in order, sound, each with its garbage counted |
| `FrameReader.LocksOnIff` | tools/mt_viewer_c/src/mtv1_protocol.c:22-49 | a frame behind garbage is read exactly when the garbage holds no magic |
| `FrameReader.StreamLocksIff` | tools/mt_viewer_c/src/mtv1_protocol.c:7-112 | a whole stream is read back frame for frame, its garbage counted, exactly when no run of garbage holds the magic |
| `FrameReader.StrayMagicSwallows` | tools/mt_viewer_c/src/mtv1_protocol.c:71-78 | a stray magic swallows an END frame right behind it |
| `Replay.Run` | tools/mt_viewer_c/src/mtv1_replay.c:44-97 | the loop ends, counts frames, resynchronisations and checksum failures, and pushes every parsed snapshot up to the END frame |
| `ReplayLaws.RecordingTallied` | tools/mt_viewer_c/src/mtv1_replay.c:44-97 | the exact tally of any recording of frames of all types and broken headers between garbage: each frame counted, each frame behind garbage a resynchronisation, each parsing snapshot pushed under its frame number whether sound or not, and a failure for each of these whose stored checksum is not that of its other bytes; an END frame is the last |
| `ReplayLaws.PieceRead` | tools/mt_viewer_c/src/mtv1_protocol.c:22-112 | any header behind clean garbage is read as the frame it announces, with its own checksum verdict, or as an error that costs the garbage and twenty bytes |
| `Replay.SessionReplayed` | tools/mt_viewer_c/src/mtv1_replay.c:44-97 | a recorded session of snapshot frames is pushed whole, in order and under its own numbers, with one resynchronisation for each run of garbage and no checksum failure |
| `EndToEnd.RunsReplayed` | tools/mt_viewer_c/src/mtv1_replay.c:44-97 | for any list of legal runs, buffers, frame numbers and garbage without the magic, replaying the recorded stream pushes exactly the snapshots of those runs, each reporting its tracker's state |
| `Replay.EndStops` | tools/mt_viewer_c/src/mtv1_replay.c:90-94 | nothing behind an END frame is played |
| `Hotspots.HotspotTable.Record` | src/mt_hotspots.c:42-73 | the table holds the first K distinct call sites with full-history counts, bytes modulo 2^32 and last sequence number; drops count every other report |
| `KeyHistory.ReportsConserved` | src/mt_hotspots.c:42-73 | every report is counted in the table or as a drop, once |
| `KeyHistory.BytesConserved` | src/mt_hotspots.c:42-73 | the bytes in the table and those it missed are all the bytes reported, modulo 2^32 |
| `KeyHistory.CountIs` | src/mt_hotspots.c:44-52 | the count of a call site is the number of its reports |
| `KeyHistory.LastSeqIs` | src/mt_hotspots.c:44-52 | the last sequence number is that of the latest report of the call site |
| `KeyHistory.KeysGrow` | src/mt_hotspots.c:57-69 | a call site keeps the place it was first given |
| `KeyHistory.KeysDistinct` | src/mt_hotspots.c:44-55 | the keys of a history are distinct and cover it |
| `EndToEnd.HotspotsAccountForAllocations` | src/mt_core.c:291-319 | table counts plus hotspot drops are the tracker's allocations plus its drops |
| `HotspotDump.PrecedesIsTotal` | src/mt_dump.c:251-286 | entries of different call sites are always ordered |
| `HotspotDump.DumpOrderCanonical` | src/mt_dump.c:251-286 | sorted listings of the same entries are the same |
| `HotspotDump.DumpOrder` | src/mt_dump.c:288-317 | the collected 16-bit slots, sorted: more allocations first, then more bytes, then lower file id, then lower line; every slot in use is there once, and every entry in use listed once, exactly when there are at most 65536 |
| `HotspotDump.DumpHeaviestFirst` | src/mt_dump.c:251-286 | in any dump counts never increase, among equal counts bytes never do, among equal bytes file ids never decrease, nor lines among equal file ids |
| `HotspotDump.DumpExactIff` | src/mt_dump.c:301-311 | a dump lists every entry in use once exactly when there are at most 65536 |
| `HotspotDump.DumpCanonicalIff` | src/mt_dump.c:251-311 | tables with the same m entries in use dump the same listing, whatever slots the entries lie in, exactly when m is at most 65536 |
| `HotspotDump.DumpMissesSite` | src/mt_dump.c:301-307 | after a report of each of more than 65536 call sites, with room for all, the dump leaves one out |
| `ViewerModel.Model.PushSnapshot` | tools/mt_viewer_c/src/mtv1_model.c:41-117 | timeline, peak, last snapshot and hotspot counts are those of everything pushed, through array growth |
| `ViewerModel.TimelineTells` | tools/mt_viewer_c/src/mtv1_model.c:52-59 | one timeline entry for each push, field by field |
| `ViewerModel.PeakTells` | tools/mt_viewer_c/src/mtv1_model.c:61-63 | the peak bounds every peak pushed and is one of them, or zero |
| `ViewerModel.RecordsTell` | tools/mt_viewer_c/src/mtv1_model.c:84-114 | each record of a snapshot is one hit of its file and line, with its size, under the sequence number of the snapshot |
| `ViewerModel.CountsTell` | tools/mt_viewer_c/src/mtv1_model.c:111 | the count of a call site is the number of records pushed that show it |
| `ViewerModel.Model.AddRecord` | tools/mt_viewer_c/src/mtv1_model.c:84-114 | one record is counted under its call site, found or created, keys staying distinct |
| `ViewerModel.TopHotspots` | tools/mt_viewer_c/src/mtv1_model.c:146-168 | the result is a permutation of the first n entries by descending count; it is a top n of the table exactly when no later entry outweighs one of these, and the whole table when there are no more than n |
| `ViewerModel.TopIffAllFit` | tools/mt_viewer_c/src/mtv1_model.c:150-154 | the first n of m call sites are the top n, whatever snapshots the viewer has received, exactly when m is at most n |
| `ViewerModel.TopMissesHeavier` | tools/mt_viewer_c/src/mtv1_model.c:150-154 | one snapshot with a record of one call site and two of another makes the lighter one the top 1 |
| `ViewerModel.DiffCompute` | tools/mt_viewer_c/src/mtv1_diff.c:109-134 | new and resolved counts are the sizes of the two key-set differences, and balance |
| `ViewerModel.DifferencesBalance` | tools/mt_viewer_c/src/mtv1_diff.c:109-134 | keys of one run plus the new ones equal keys of the other plus the resolved ones |
| `Fragmentation.Calc` | src/mt_fragmentation.c:56-71 | the result is a permille for all 32-bit inputs, zero exactly on the two early returns |
| `Fragmentation.CalcExactIff` | src/mt_fragmentation.c:66-68 | it is the documented ratio exactly when the product fits 32 bits or is not formed |
| `Fragmentation.CalcAntitone` | src/mt_fragmentation.c:66-68 | a larger largest block never means more fragmentation while its product fits or is not formed |
| `Fragmentation.CalcAntitoneIff` | src/mt_fragmentation.c:56-71 | for a given total this holds of all largest blocks exactly when the total is at most 4294968 or above 4294967288 |
| `Fragmentation.CalcWrapExample` | src/mt_fragmentation.c:66-68 | past that point the permille can jump to 1000 |
| `Fragmentation.UnpackPacked` | src/mt_fragmentation.c:140-174 | unpacking recovers permille, health and availability |
| `Fragmentation.GetFragmentation` | src/mt_fragmentation.c:109-147 | with and without a heap walk, the packed word carries the permille in bits 0 to 15, its health class in 16 and 17, and the availability in bit 19 |
| `EndToEnd.SnapshotWrite` | src/mt_snapshot.c:53-139 | the snapshot of a tracker's table and counters, whatever slots its records lie in |
| `EndToEnd.SnapshotReports` | src/mt_snapshot.c:89-130 | every header field, flag bit and record of a snapshot, in terms of the tracker's state |
| `EndToEnd.SnapshotDecodes` | tools/mt_viewer_c/src/mtv1_decode_mts1.c:23-94 | a written snapshot verifies and parses to what was put in, in both decoders |
| `EndToEnd.HeapToReport` | src/mtv1_stream.c:65-118 | for every reachable tracker, buffer and garbage, the frame read back is sound and decodes to the tracker's statistics and its listed records of smallest pointer; the listed records are the USED ones exactly when none lies past slot 65535 |
| `EndToEnd.ReportIsHeap` | src/mt_snapshot.c:53-139 | with room for all, never more than N blocks live and no record past slot 65535, the records are the live heap: every block once, by address, with its size, call site and sequence number |

## Left out

- Locks, interrupt races and re-entry through the inside flag: calls are taken one at a time.
- TrackerRuns.CountersConserved: event and sequence counters are unbounded, where the program's wrap at 2^32; snapshots carry them modulo 2^32.
- Hotspots.HotspotTable.Record: counts and drops are unbounded, bytes wrap as in the program.
- FrameReader.FrameRead: the skipped-byte count is unbounded and the payload buffer is always granted.
- ViewerModel.Model.PushSnapshot: counts are unbounded and memory is always granted; telemetry lines and marks are not kept.
- Null arguments other than the pointers given to free and realloc: buffers, streams and models exist.
- Telemetry, mark and END sending, which only pass a text or nothing to the frame sender.
- The file-name hash and the pointer hash themselves: any function will do.
- Peak, slope and spike figures of the run comparison: one branch each, or floating point.
- Serial transports, files, capture, export and command lines: input and output only.
- Text dumps and the terminal screens: presentation; the order of the entries is modelled.
- Viewers with 32-bit pointers, whose records would cut addresses; big-endian hosts, where the header copy differs.
