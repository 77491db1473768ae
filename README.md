# shmio, modelled in Dafny

shmio is an append-only message log kept in a memory-mapped file and shared between one writer
and many readers. The file starts with a header. Frames follow it, one per
message. A writer reserves a frame, fills the payload in place and then *commits*. Committing
publishes the new end of the log by storing it in the header's size field. Readers only look
below the committed size.

The repository holds three revisions of this design, and the model covers all three.

- **The native addon** (`addons/shm_mapping.cpp`, `shm_writer.cpp`, `shm_iterator.cpp`, with the
  constants and error codes of `src/lib/native/types.ts`).
  - The header is 24 bytes: `headerSize`, `dataOffset` and `committed size`, each a u64
    little-endian.
  - A frame is `[u16 frameSize][payload][u16 frameSize]` with `frameSize = |payload| + 4`.
  - `ShmMapping` opens or creates the file and repairs an out-of-range header.
  - `ShmWriter` allocates and commits frames.
  - `ShmIterator` reads batches of committed frames, optionally checking each frame's suffix.
- **The newer JavaScript revision** (`dist/lib/Pool.js`, `dist/lib/SharedMemoryIterator.js`).
  - It uses the same 24-byte header and u16 frames.
  - It walks the file as `count` Node Buffers. The buffers are the segments `addons/mmap.cpp`
    maps, each reaching `overlap` bytes into the next segment, except the last one.
- **The older TypeScript revision** (`src/lib/Pool.ts`, `src/lib/SharedMemoryIterator.ts`).
  - The header is an 8-byte size, kept as two u32 halves.
  - Each record is a u32 size and then, two bytes further on, the payload.

## Modules

- `Bytes`:
  - little-endian codecs and their round trips;
  - the addon's byte loops (`ReadUint64LE`, `WriteUint64LE`, the u16 accessors), as imperative
    methods over an `array<byte>`.
- `FrameCodec`: the u16 frame format.
  - Encoding a frame and a log, with the append law.
  - Stamping the two length fields, with the proof that stamping and then filling the payload
    lays down exactly the encoded frame.
- `NativeTypes`: the batch defaults, the four iterator error codes and `isShmIteratorError`.
- `NativeMapping`:
  - option validation;
  - open-or-create of the file;
  - header normalisation, done in place on the mapped array;
  - the mapping object `ShmMapping`, as a class.
- `NativeWriter`:
  - the writer class `ShmWriter`;
  - the allocation decision as a function;
  - the debug check on the previous frame, both as written and corrected (see Findings).
- `NativeIterator`:
  - the batch loop of `CollectFrames`, as a `while` loop proved against a recursive
    specification `Scan`;
  - the class `ShmIterator`;
  - the read-back theorem: a committed log returns exactly its payloads, in order.
- `Segments`:
  - the segment layout of `mmap.cpp`;
  - the cursor (`bufferIndex`, `index`) with its single rebase per step;
  - Node's Buffer accessors with their exceptions, and the clamping of `slice`;
  - where consecutive frames lie along a walk.
- `SegmentedPool` and `SegmentedIterator`: the newer JavaScript `Pool` and
  `SharedMemoryIterator`. A reader started where a writer's frames begin yields those payloads
  back.
- `LegacyPool` and `LegacyIterator`: the older TypeScript revision.
  - `commit` is modelled with ECMAScript `~~`. The write of the high half throws once `~~` turns
    negative, and by then the low half is already written.
  - The u32 size that `sliceSize` writes overlaps the payload's first two bytes.

The shared mapping is one `array<byte>`, which the mapping, the writer and the iterators hold
together. Pure decisions, such as option parsing, the allocation plan, one loop step or one
iterator step, are functions. The methods that change state are proved against those functions.

Three behaviours of the code are worth knowing when reading the model:

- `addons/mmap.cpp:47-55` gives every buffer but the last `overlap` extra bytes. The newer
  `Pool`, however, asserts that all buffers have the same length (`dist/lib/Pool.js:45`), so its
  constructor fails for every mapping with several buffers and a non-zero overlap
  (`Segments.SameLengthsShape`). The model constructs a pool only when that assertion passes.
- Under debug checks, the native reader rejects a frame only when its length is below 4 or its
  prefix and suffix differ (`addons/shm_iterator.cpp:347-350`). The JavaScript iterators check
  nothing.
- The JavaScript pools have no "log exhausted" error of their own. Running out of space shows up
  as the `TypeError` or `RangeError` that Node's Buffer accessors throw (`Segments.BufferError`).

## Model

| member | source | states |
|---|---|---|
| Bytes.DecodeEncode | addons/shm_mapping.cpp:347-359 | decoding the n-byte little-endian encoding of any v < 256^n gives v back |
| Bytes.EncodeDecode | addons/shm_mapping.cpp:347-359 | encoding the value of any byte string at its own width gives the string back |
| Bytes.ReadUint64LE | addons/shm_mapping.cpp:347-353 | the 8-step shift-and-or loop from the top byte down returns the u64 little-endian value at the offset |
| Bytes.WriteUint64LE | addons/shm_mapping.cpp:355-359 | the loop writing `(value >> 8i) & 0xff` into byte i replaces exactly the 8 bytes at the offset by the encoding of value |
| Bytes.ReadUint16LE | addons/shm_writer.cpp:156-158 | returns the u16 little-endian value at the offset |
| Bytes.WriteUint16LE | addons/shm_writer.cpp:160-163 | writes the low byte and then the high byte in place; the u16 there then reads back as value |
| Bytes.WriteLEElsewhere | addons/shm_mapping.cpp:202-212 | a field write leaves every byte range it does not overlap unchanged |
| FrameCodec.LengthField | addons/shm_writer.cpp:123-124 | the stored length is the frame size cast to u16, equal to it whenever it fits |
| FrameCodec.EncodeLogAppend | addons/shm_writer.cpp:122-128 | appending a payload to a log appends exactly its frame |
| FrameCodec.EncodeLogSize | addons/shm_writer.cpp:83 | the encoded log has LogSize bytes: each payload plus 4 |
| FrameCodec.StampFrame | addons/shm_writer.cpp:122-124 | the prefix and the suffix read back as the u16 frame size, and every other byte is unchanged |
| FrameCodec.StampThenFill | addons/shm_writer.cpp:122-130 | stamping both length fields and then filling the returned payload region gives exactly the encoded frame |
| FrameCodec.FrameFields | addons/shm_iterator.cpp:344-379 | in an encoded frame, the prefix and the suffix hold the frame size and the bytes between them are the payload |
| FrameCodec.LogLast | addons/shm_writer.cpp:100-104 | a log in memory ends with the frame of its last payload, just before the log's end |
| NativeTypes.ParseCode | src/lib/native/types.ts:30-34 | a string recognised as an error code is that code's name |
| NativeTypes.CodeNameRoundTrip | src/lib/native/types.ts:30-34 | each of the four error codes is recovered from its name |
| NativeTypes.IsShmIteratorError | src/lib/native/types.ts:74-86 | false for non-objects and null; otherwise true exactly when `code` is one of the four names |
| NativeTypes.ThrownErrorRecognised | addons/shm_iterator.cpp:407-411 | every error the iterator throws is recognised by `isShmIteratorError`, and its code is recovered |
| NativeIterator.ParseOptionsDefaults | addons/shm_iterator.cpp:11-12 | empty options give 64 messages and 262144 bytes without checks |
| NativeMapping.HeaderRoundTrip | addons/shm_mapping.cpp:202-220 | writing the three u64 header fields and reading them back gives the same header; bytes past 24 are untouched |
| NativeMapping.StoreCommittedHeader | addons/shm_mapping.cpp:234-239 | storing the committed size changes that field only, and nothing past the header |
| NativeMapping.NormaliseHeader | addons/shm_mapping.cpp:202-220 | the repaired header always has 0 < headerSize ≤ length, 0 < dataOffset ≤ length and dataOffset ≤ committed ≤ length |
| NativeMapping.NormaliseFields | addons/shm_mapping.cpp:202-220 | each in-range field survives; each out-of-range one becomes 24, then headerSize, then dataOffset, in that order |
| NativeMapping.NormaliseIdempotent | addons/shm_mapping.cpp:202-220 | a well-formed header is left alone, so normalising twice equals normalising once |
| NativeMapping.NormaliseHeaderGuarded | addons/shm_mapping.cpp:202-220 | the corrected repair: always a well-formed header whose data offset is at least 24 |
| NativeMapping.GuardedAgrees | addons/shm_mapping.cpp:202-220 | the corrected repair agrees with the source's whenever the source's data offset is at least 24, and keeps every well-formed header with its data past byte 24 |
| NativeMapping.FreshFileHeader | addons/shm_mapping.cpp:202-220 | a zero-filled new file reads as header 0/0/0 and is repaired to 24/24/24, an empty log |
| NativeMapping.NormalisedImageHeader | addons/shm_mapping.cpp:202-220 | normalisation rewrites only the header, to the repaired fields, and leaves a well-formed mapping byte-for-byte unchanged |
| NativeMapping.ParseOpenOptions | addons/shm_mapping.cpp:36-91 | an accepted configuration keeps path, writable and debugChecks, with a capacity of at least 24 that fits in u64 |
| NativeMapping.ParseOpenOptionsCases | addons/shm_mapping.cpp:52-91 | a writer without a capacity is refused; a reader defaults to 24; an ill-typed or lossy capacity is refused; one below 24 is refused; otherwise it is used |
| NativeMapping.ParseOpenOptionsPath | addons/shm_mapping.cpp:39-50 | a non-object argument and a non-string path are refused with their own errors |
| NativeMapping.OpenFile | addons/shm_mapping.cpp:125-179 | a missing file is created zero-filled at the capacity, by a writer only; an existing file is mapped at its own size if it is at least 24 bytes |
| NativeMapping.ExistingFileKeepsSize | addons/shm_mapping.cpp:130-170 | opening an existing file never depends on the requested capacity |
| NativeMapping.NormaliseInPlace | addons/shm_mapping.cpp:202-220 | the in-place repair leaves the normalised image in the array and returns its three fields |
| NativeMapping.RepairField | addons/shm_mapping.cpp:203-212 | a field is rewritten with the fallback exactly when it is out of range; otherwise the bytes are unchanged |
| NativeMapping.MappedImage | addons/shm_mapping.cpp:125-220 | what the constructor leaves in the file: the normalised image; a read-only (`PROT_READ`) mapping is left byte-for-byte unchanged, and one whose header needs repair faults instead (RepairFaults) |
| NativeMapping.ReadOnlyZeroFileFaults | addons/shm_mapping.cpp:187-205 | a read-only open of an existing zero-filled file faults at the first repair write |
| NativeMapping.MappedImageCorrected | addons/shm_mapping.cpp:196-220 | the corrected constructor: a writable mapping gets the repaired header, a read-only one keeps the file as it is, and the data is never touched |
| NativeMapping.CorrectedAgrees | addons/shm_mapping.cpp:196-220 | wherever the source does not fault, the corrected constructor leaves the same bytes |
| NativeMapping.ShmMapping.constructor | addons/shm_mapping.cpp:196-220 | called only where the source does not fault: the mapping's bytes become the normalised image, unchanged when read-only, and the cached headerSize and dataOffset are its fields |
| NativeMapping.ShmMapping.EnsureOpen | addons/shm_mapping.cpp:241-245 | fails exactly when the mapping is closed |
| NativeMapping.ShmMapping.HeaderView | addons/shm_mapping.cpp:247-251 | an open mapping gives the view of its first headerSize bytes |
| NativeMapping.ShmMapping.LoadCommittedSize | addons/shm_mapping.cpp:227-232 | returns the header's committed field |
| NativeMapping.ShmMapping.StoreCommittedSize | addons/shm_mapping.cpp:234-239 | replaces the committed field and nothing else |
| NativeMapping.ShmMapping.WriterSettings | addons/shm_mapping.cpp:289-307 | refused when closed, read-only or given a non-object; otherwise debugChecks is the option when present, else the mapping's |
| NativeMapping.ShmMapping.IteratorStart | addons/shm_mapping.cpp:253-276 | start cursor 0 by default; a BigInt start must fit in u64; a non-BigInt start or a non-object argument is refused |
| NativeMapping.ShmMapping.Close | addons/shm_mapping.cpp:320-345 | afterwards the mapping is closed with length 0; a second close changes nothing |
| NativeMapping.OpenSharedLog | addons/shm_mapping.cpp:36-101 | fails with the option error or the open error; otherwise it succeeds iff the constructor does not fault (RepairFaults), giving a fresh open mapping over the normalised image of the file |
| NativeWriter.WriteCursor | addons/shm_writer.cpp:90-93 | the next frame goes at cursor + pendingBytes, raised to the data offset when below it |
| NativeWriter.CheckPreviousFrame | addons/shm_writer.cpp:100-120 | corrected debug check: it rejects only when the check applies, and a pass means the suffix is at least 4, lies within the data, and matches the prefix |
| NativeWriter.CheckPreviousFrameAsWritten | addons/shm_writer.cpp:100-120 | the check as written: passes when it does not apply; an out-of-mapping read happens at the u64-wrapped address `w - size` |
| NativeWriter.CheckAgreesWithoutWrap | addons/shm_writer.cpp:100-120 | when the suffix claims no more than w bytes, the written and the corrected checks agree |
| NativeWriter.DebugCheckReadsOutside | addons/shm_writer.cpp:109-114 | on a well-formed 40-byte mapping, the written check reads at 2^64 − 70, while the corrected check reports CrossesDataOffset |
| NativeWriter.WrittenLogPassesCheck | addons/shm_writer.cpp:100-120 | the corrected check never rejects the end of a log of frames laid down from the data offset |
| NativeWriter.AllocationPlan | addons/shm_writer.cpp:76-120 | non-positive sizes fail; a frame past the mapping's end fails with Exhausted; otherwise it succeeds iff debug checks are off or the previous frame passes, at the write cursor |
| NativeWriter.StampKeepsHeader | addons/shm_writer.cpp:122-124 | stamping a frame at or past byte 24 leaves the header, and so the committed size, unchanged |
| NativeWriter.ShortDataOffsetOverwritesHeader | addons/shm_mapping.cpp:208-212 | the source's normalisation keeps a header 24/8/8; the writer then plans its first frame at byte 8, and stamping it rewrites the header's dataOffset field before any commit |
| NativeWriter.GuardedAllocationKeepsHeader | addons/shm_writer.cpp:76-128 | after the guarded normalisation, any frame the allocation plan places leaves the whole header, and so the committed size, unchanged |
| NativeWriter.ShmWriter.constructor | addons/shm_writer.cpp:29-47 | the writer starts at the committed size held in the header, with nothing pending |
| NativeWriter.ShmWriter.EnsureOpen | addons/shm_writer.cpp:55-65 | passes iff both the writer and its mapping are open; each case has its own error |
| NativeWriter.ShmWriter.CheckPrevious | addons/shm_writer.cpp:100-120 | reading the mapping gives the verdict of CheckPreviousFrame |
| NativeWriter.ShmWriter.PlanFrame | addons/shm_writer.cpp:76-120 | the checks before any write give AllocationPlan |
| NativeWriter.ShmWriter.Allocate | addons/shm_writer.cpp:67-131 | on success both length fields are stamped, pendingBytes grows by the frame, the payload view starts just past the prefix, and nothing else changes; with a data offset of at least 24 the header, and so the committed size, is unchanged; on failure nothing changes |
| NativeWriter.ShmWriter.StampLengthFields | addons/shm_writer.cpp:122-124 | writes the prefix and the suffix of the frame in place, exactly as StampFrame; at or past byte 24 the header is unchanged |
| NativeWriter.ShmWriter.Commit | addons/shm_writer.cpp:133-145 | with frames pending, stores cursor + pendingBytes as the committed field and nothing else; with none pending, does nothing |
| NativeWriter.ShmWriter.Close | addons/shm_writer.cpp:147-154 | keeps the writer valid, drops the pending frames; every later call fails with WriterClosed |
| NativeWriter.CreateWriter | addons/shm_mapping.cpp:289-318 | refused exactly when the settings checks refuse; otherwise a writer, starting at the committed size with the chosen debugChecks |
| NativeIterator.ParseLimit | addons/shm_iterator.cpp:269-295 | a limit is accepted iff it is absent or a Number in 1 .. 2^32-1; when absent it is the default |
| NativeIterator.ParseOptions | addons/shm_iterator.cpp:262-307 | accepted iff both limits are valid and debugChecks, if present, is a boolean; otherwise ERR_SHM_CURSOR |
| NativeIterator.BatchArgument | addons/shm_iterator.cpp:173-184 | undefined or null give the defaults, an object is parsed, anything else is refused |
| NativeIterator.NextStep | addons/shm_iterator.cpp:335-374 | a frame is taken only when it is whole, committed, inside the mapping and within both budgets, and, under debug checks, only if its suffix matches |
| NativeIterator.Collect | addons/shm_iterator.cpp:319-330 | a committed size before the data offset, or a cursor past the committed bytes, gives ERR_SHM_CURSOR; a batch never passes the committed size |
| NativeIterator.ScanFacts | addons/shm_iterator.cpp:335-387 | a batch covers exactly its frames' bytes and stays within maxMessages, maxBytes and the committed size |
| NativeIterator.ScanFrames | addons/shm_iterator.cpp:344-379 | the batch's views are consecutive whole frames from the cursor, suffix-checked under debug checks |
| NativeIterator.TakeWhole | addons/shm_iterator.cpp:335-379 | a whole committed frame within both budgets is taken |
| NativeIterator.CollectAtEnd | addons/shm_iterator.cpp:335 | a batch from the committed size is empty |
| NativeIterator.CollectFirstFrameTooLarge | addons/shm_iterator.cpp:364-366 | a first frame bigger than maxBytes gives an empty batch, not an error |
| NativeIterator.CollectPartialFrame | addons/shm_iterator.cpp:336-357 | a frame not yet fully committed gives an empty batch |
| NativeIterator.PayloadViewsShow | addons/shm_iterator.cpp:376-379 | each view of an encoded log shows exactly the payload written there |
| NativeIterator.ScanEncodedLog | addons/shm_iterator.cpp:335-385 | the loop over a committed log within budget collects one view per payload and consumes the whole log |
| NativeIterator.ReadBack | addons/shm_iterator.cpp:309-389 | a committed log of payloads is read back in one batch as the payloads themselves, in write order, and the cursor moves to its end |
| NativeIterator.ShmIterator.LoadCommittedSize | addons/shm_iterator.cpp:413-418 | returns the header's committed field |
| NativeIterator.ShmIterator.EnsureOpen | addons/shm_iterator.cpp:391-395 | fails with ERR_SHM_ITERATOR_CLOSED exactly when closed |
| NativeIterator.ShmIterator.FrameStep | addons/shm_iterator.cpp:336-374 | one loop turn, reading the mapping, decides as NextStep does |
| NativeIterator.ShmIterator.CollectFrames | addons/shm_iterator.cpp:309-389 | the imperative loop returns exactly the batch Collect specifies |
| NativeIterator.ShmIterator.Next | addons/shm_iterator.cpp:149-167 | returns the first frame of a one-frame batch and moves the cursor past it; returns null when none is committed; on error the cursor stays |
| NativeIterator.ShmIterator.NextBatch | addons/shm_iterator.cpp:169-195 | returns the batch for the parsed options and moves the cursor by its consumed bytes; on error the cursor stays |
| NativeIterator.ShmIterator.Cursor | addons/shm_iterator.cpp:197-201 | the cursor relative to the data offset, unless closed |
| NativeIterator.ShmIterator.CommittedSize | addons/shm_iterator.cpp:203-214 | the committed bytes past the data offset; ERR_SHM_CURSOR when the size precedes the offset |
| NativeIterator.ShmIterator.Seek | addons/shm_iterator.cpp:216-245 | moves to a lossless BigInt position iff it is within the committed size; otherwise the cursor stays; the iterator stays valid |
| NativeIterator.ShmIterator.Close | addons/shm_iterator.cpp:247-260 | closes and drops the mapping length; every later call fails as closed |
| NativeIterator.CommittedRelative | addons/shm_iterator.cpp:69 | the committed size past the data offset, or 0 when it does not lie past it |
| NativeIterator.FromMapping | addons/shm_iterator.cpp:40-77 | a mapping shorter than 24 is gone; the start cursor is accepted iff it is within the committed size |
| NativeIterator.CreateIterator | addons/shm_mapping.cpp:253-287 | refused when the mapping's option checks fail; otherwise it succeeds iff the requested start is within the committed size, failing with ERR_SHM_CURSOR when it is not, and the iterator starts there |
| NativeIterator.BufferLength | addons/shm_iterator.cpp:89-104 | a Number length is taken modulo 2^32; a BigInt one must fit in u64; anything else is refused |
| NativeIterator.BufferStart | addons/shm_iterator.cpp:128-139 | an absent start is 0; a given one must be a lossless BigInt |
| NativeIterator.FromBuffer | addons/shm_iterator.cpp:79-147 | a length below 24 is gone; the header is read without normalisation; the data offset must lie within the length and the start within the committed size |
| Segments.BufferLength | addons/mmap.cpp:47-55 | buffer i is a segment plus the overlap, except the last, which is a segment; each lies inside the file |
| Segments.SameLengthsShape | addons/mmap.cpp:47-55 | all buffers have one length iff there is a single buffer or no overlap |
| Segments.AllSameLength | dist/lib/Pool.js:45 | the reduce over the buffers returns whether they all have the first one's length |
| Segments.Stride | dist/lib/Pool.js:32 | `buffers[0].length - overlap` is the segment size with several buffers, and the segment size less the overlap with one |
| Segments.AddressIsPosition | addons/mmap.cpp:53 | inside the existing buffers, a cursor's file address is its logical position |
| Segments.Place | dist/lib/Pool.js:41-42 | the cursor for a position has that position and an index below the stride |
| Segments.Advance | dist/lib/Pool.js:63-69 | moving n bytes advances the position by n, rebasing at most once, and keeps the index below the stride when n ≤ stride |
| Segments.ClampIndex | dist/lib/Pool.js:59 | a slice bound is clamped to 0 .. length, and a negative one counts from the end |
| Segments.SliceOf | dist/lib/Pool.js:59 | the slice lies inside its buffer, and is exactly [start, end) when those bounds are in range |
| Segments.ReadUInt16LE | dist/lib/SharedMemoryIterator.js:40 | throws NoBuffer past the last buffer and RangeError past a buffer's end; otherwise returns the u16 at the file address |
| Segments.WriteUInt16LE | dist/lib/Pool.js:61-62 | succeeds iff the value fits in u16 and the field fits in the buffer; only then are the two bytes written |
| Segments.ReadUInt32LE | src/lib/SharedMemoryIterator.ts:84 | throws NoBuffer past the last buffer and RangeError past a buffer's end; otherwise returns the u32 at the file address |
| Segments.WriteUInt32LE | src/lib/Pool.ts:152 | succeeds iff 0 ≤ value < 2^32 and the field fits; only then are the four bytes written |
| Segments.PassFramesAppend | dist/lib/Pool.js:63-69 | the cursor after the frames of payloads + [p] is the cursor after payloads, advanced by p's frame |
| SegmentedPool.FreshHeaderFields | dist/lib/Pool.js:35-40 | a fresh header reads 24/24/24 and leaves the data untouched |
| SegmentedPool.OpenedImage | dist/lib/Pool.js:34-40 | a zero size gets a fresh header; any other header is kept byte for byte |
| SegmentedPool.NewPool | dist/lib/Pool.js:26-46 | writes the header first, then succeeds iff the first buffer has at least 32 bytes and the buffers have equal lengths; the cursor is placed at the stored size |
| SegmentedPool.Pool.constructor | dist/lib/Pool.js:41-43 | the cursor sits at Place(stride, size), with nothing uncommitted |
| SegmentedPool.Pool.Status | dist/lib/Pool.js:78-80 | the cursor's position is the committed plus the uncommitted bytes |
| SegmentedPool.Pool.Size | dist/lib/Pool.js:81-83 | the committed and the uncommitted sizes sum to the cursor's position |
| SegmentedPool.Pool.IsUsed | dist/lib/Pool.js:84-86 | true iff the committed size exceeds the header's dataOffset |
| SegmentedPool.Pool.SetActive | dist/lib/Pool.js:52-54 | sets the mode and keeps the pool valid |
| SegmentedPool.Pool.Commit | dist/lib/Pool.js:47-51 | the uncommitted bytes are added to the committed size, which is written into the header's size field, and only there; beyond u64 it throws |
| SegmentedPool.Pool.SliceSize | dist/lib/Pool.js:55-71 | when active and the frame fits, it stamps both fields, returns the payload view and advances the cursor by the frame; otherwise it throws NoBuffer or RangeError, with only the prefix written if only the suffix is out of range; when inactive, a fresh Buffer |
| SegmentedPool.WriteLengthFields | dist/lib/Pool.js:61-62 | both u16 writes succeed iff the frame fits its buffer; a failing suffix leaves the prefix written |
| SegmentedPool.SliceThenFill | dist/lib/Pool.js:55-71 | slicing at the end of placed frames and filling the slice with p places p's frame after them, and the cursor moves to its end |
| SegmentedIterator.StartWalker | dist/lib/SharedMemoryIterator.js:20-23 | the walk from fromIndex reaches fromIndex, with buffersTotal counting the buffers before the cursor |
| SegmentedIterator.NextFrame | dist/lib/SharedMemoryIterator.js:33-53 | done iff buffersTotal + index ≥ totalSize; otherwise the slice [index+2, index+size−2) and a cursor size bytes on; read errors are NoBuffer or RangeError |
| SegmentedIterator.Drain | dist/lib/SharedMemoryIterator.js:33-53 | n calls of next yield at most n payloads |
| SegmentedIterator.ReadsFrameAt | dist/lib/SharedMemoryIterator.js:40-51 | at a placed frame, next yields exactly its payload and moves by the frame |
| SegmentedIterator.DrainReadsPlaced | dist/lib/SharedMemoryIterator.js:33-53 | frames placed along an aligned walk are yielded payload by payload in order, and then the walk is done |
| SegmentedIterator.ReadBackFrom | dist/lib/SharedMemoryIterator.js:14-53 | an iterator from where the frames begin to where they end yields exactly the payloads written, then done |
| SegmentedIterator.Iterator.constructor | dist/lib/SharedMemoryIterator.js:14-29 | the walk starts at fromIndex, and next is replaced by "always done" iff toIndex ≤ fromIndex |
| SegmentedIterator.Iterator.Next | dist/lib/SharedMemoryIterator.js:24-53 | replaced or not, each call is the step NextFrame specifies; a throwing read moves nothing |
| SegmentedIterator.ShmIter | dist/lib/SharedMemoryIterator.js:56-58 | a new iterator over [fromIndex, toIndex) |
| LegacyPool.StoredSize | src/lib/Pool.ts:92-94 | low half + high half × 2^32 is the u64 little-endian value at 0 |
| LegacyPool.ToInt32 | src/lib/Pool.ts:123 | `~~` wraps into 32 bits and reads the result as signed |
| LegacyPool.CommitHalves | src/lib/Pool.ts:123-125 | the low half is size mod 2^32; the high half is non-negative iff bits 32..63 are below 2^31 |
| LegacyPool.HalvesReadBack | src/lib/Pool.ts:124-125 | writing both halves and reading them back gives the size mod 2^64, with the data untouched |
| LegacyPool.NewPool | src/lib/Pool.ts:77-113 | with restore, the size is read from the header (0 means 8) and the cursor placed there; without it, cursor 8; then the two assertions; nothing is written |
| LegacyPool.WithSize | src/lib/Pool.ts:55-57 | a zeroed single buffer: fails below 32 bytes; otherwise an unused pool at cursor 8 |
| LegacyPool.Pool.constructor | src/lib/Pool.ts:77-101 | the cursor is the given placement of the size, with nothing uncommitted |
| LegacyPool.Pool.Status | src/lib/Pool.ts:185-187 | the cursor's position is the committed plus the uncommitted bytes |
| LegacyPool.Pool.Size | src/lib/Pool.ts:192-194 | the committed and the uncommitted sizes sum to the cursor's position |
| LegacyPool.Pool.IsUsed | src/lib/Pool.ts:196-198 | true iff more than the 8-byte header is committed |
| LegacyPool.Pool.SetActive | src/lib/Pool.ts:133-135 | sets the mode and keeps the pool valid |
| LegacyPool.Pool.Commit | src/lib/Pool.ts:120-126 | adds the uncommitted bytes; writes both halves, which read back as size mod 2^64, unless `~~` is negative, in which case it throws after the low half |
| LegacyPool.Pool.SliceSize | src/lib/Pool.ts:140-165 | when active it succeeds iff the u32 size field fits at the cursor; then it writes the size, returns the clamped slice two bytes on, and advances 2 + size; when inactive, a fresh Buffer |
| LegacyPool.SizeUnderPayload | src/lib/Pool.ts:146-152 | after sliceSize and the fill, the payload is intact and the u32 read back is the low 16 bits of the size plus 2^16 × the payload's first two bytes |
| LegacyPool.SizeReadBackExact | src/lib/Pool.ts:140-165 | the size reads back as written iff the payload's first u16 equals size / 2^16 |
| LegacyPool.SizeOverwrittenExample | src/lib/Pool.ts:152 | a 4-byte payload starting with byte 1 reads back as a 65540-byte record |
| LegacyIterator.LegacyNext | src/lib/SharedMemoryIterator.ts:76-109 | done iff buffersTotal + index ≥ totalSize; otherwise the item [position, slice, size, size] at the u32 size and a cursor 2 + size on; read errors are NoBuffer or RangeError |
| LegacyIterator.ReadsSlicedRecord | src/lib/SharedMemoryIterator.ts:84-97 | a record sliced and then filled is read at its position, and its size comes back right iff the payload starts with the size's high half; then so do its bytes |
| LegacyIterator.ReplacedNextAgrees | src/lib/SharedMemoryIterator.ts:60-69 | for totalSize ≤ 8, the method that next replaces is done at the start iff fromIndex ≥ totalSize |
| LegacyIterator.Iterator.constructor | src/lib/SharedMemoryIterator.ts:36-70 | the walk starts at fromIndex, and next is replaced iff totalSize ≤ 8 |
| LegacyIterator.Iterator.Next | src/lib/SharedMemoryIterator.ts:76-109 | once replaced, always done; otherwise each call is the step LegacyNext specifies, and a throwing read moves nothing |
| LegacyIterator.ShmIter | src/lib/SharedMemoryIterator.ts:52-58 | the total is toIndex when given, else the stored size, whose reads throw RangeError when the first buffer is shorter than 8 |

## Left out

- I/O: `open`, `ftruncate`, `fstat`, `mmap` and `munmap` are replaced by a `FileState` value and an `array<byte>`. The OS error paths are not modelled: `fstat` failing, zero-length files, a `size_t` overflow, `mmap` failing.
- Concurrency is left out: the acquire/release atomics on the committed size and the memory ordering between a writer and readers in other processes. Each call is modelled as atomic, with one writer.
- node-addon-api's pending-exception behaviour: `ThrowAsJavaScriptException` in the mapping and the writer does not stop the C++ code from running on. The model treats each such exception as the end of the call.
- The argument-count and argument-type checks of the constructors that JavaScript callers cannot reach, for example `ShmMapping`'s four-argument constructor and `ShmWriter`'s External check.
- NativeIterator.ParseLimit, NativeIterator.BufferLength: a JavaScript Number is modelled as an integer (`JsValue.Number(n: int)`). The conversions `Int64Value()` (`addons/shm_iterator.cpp:275`, `:289`) and `Uint32Value()` (`:92`) truncate fractional values and map NaN and the infinities, so `maxMessages: 1.5` is accepted as 1 and `0.5` or NaN are refused as 0. The model does not capture those conversions.
- NativeMapping.ParseOpenOptions: a Number `capacityBytes` is taken as already converted to u64, because `static_cast<uint64_t>` of an out-of-range double is undefined behaviour in C++.
- NativeWriter.AllocationPlan, NativeWriter.ShmWriter.CheckPrevious, NativeWriter.ShmWriter.PlanFrame, NativeWriter.ShmWriter.Allocate: with debug checks on, these use the corrected previous-frame check `CheckPreviousFrame` (see Findings). Where the source's u64 frame start wraps, the source reads outside the mapping and the model reports CrossesDataOffset instead. `NativeWriter.CheckAgreesWithoutWrap` proves that the two checks agree on every other input.
- NativeWriter.ShmWriter.Allocate: the unchanged header is promised only for a data offset of at least 24. The mapping keeps the source's normalisation, which accepts smaller offsets, and there the first frames overwrite the header (see Findings).
- NativeIterator.FromBuffer: requires the length argument to be at most the Buffer's own length. The source never compares the two (`addons/shm_iterator.cpp:89-116`), so given a larger length it reads the header and the frames past the end of the Buffer, which has no meaning in the model.
- NativeWriter.ShmWriter.Allocate: requires `requested <= MAX_PAYLOAD`. A larger size makes the source truncate the stored u16 length while still reserving the full frame, and the model does not cover that. The check that the argument is a Number, and `Int64Value`'s truncation of non-integers, are also left out.
- The cursor arithmetic is unbounded; its u64 wrap-around (`cursor + size` past 2^64) is not modelled. Neither are JavaScript Number sizes above 2^53, at which `+=` rounds.
- A `ShmIterator` used after its `ShmMapping` is closed and unmapped. In the source this reads freed memory. In the model the bytes stay allocated.
- `Pool.slice(name)` and `Pool.wrap(name)` are left out: they only route a bendec type size or wrapper into `sliceSize`. The memHeader bendec codec is modelled directly as three u64 fields.
- Segments.ValidLayout: layouts with `overlap >= segmentSize` are left out.
- `Pool.withBuffers` with arbitrary caller-supplied buffers is left out. Both pools are modelled over the segments of one mapping.
- Default arguments are left out; callers pass every argument. This covers `fromIndex = HEADER_SIZE` of the older iterator and `restore = true`.
- LegacyIterator.ReadsSlicedRecord requires a payload of at least 2 bytes. Shorter records leave part of the u32 size unwritten by the payload, and the lemma does not describe them.
- The consumer, streaming and `SharedLog` wrappers (`SharedMemoryConsumer`, `SharedLog`, `SharedMemory`, `src/lib/native/index.ts`) are built on this core and are not part of this model.

## Findings

| source | as written | input that shows it | evidently intended | confidence | as-written member | corrected member |
|---|---|---|---|---|---|---|
| addons/shm_writer.cpp:109-114 | with debug checks on, `previousFrameStart = previousFrameEnd - previousFrameSize` is computed in uint64. A suffix claiming more bytes than lie before the write cursor wraps to a huge start, which passes the `< dataOffset` guard and is read as the prefix's address | a 40-byte mapping with header 24/24/30 whose u16 at byte 28 is 100; `allocate(1)` reads at offset 2^64 − 70, which wraps to 70 bytes below the mapping's base | a suffix longer than the data before the cursor is reported as "previous frame crosses data offset" | not executed | NativeWriter.CheckPreviousFrameAsWritten, NativeWriter.DebugCheckReadsOutside | NativeWriter.CheckPreviousFrame |
| addons/shm_mapping.cpp:208-212 | the header repair accepts any data offset in 1 .. length, including one inside the 24 header bytes | a 64-byte file with header 24/8/8: it is kept, the writer places its first frame at byte 8, and `allocate(16)` stamps the frame size 20 over the header's dataOffset field | a data offset inside the header is repaired like any other out-of-range one, so frames never overwrite the header | not executed | NativeWriter.ShortDataOffsetOverwritesHeader | NativeMapping.NormaliseHeaderGuarded, NativeWriter.GuardedAllocationKeepsHeader |
| addons/shm_mapping.cpp:187-219 | a read-only open maps the file `PROT_READ`, and the constructor still writes the repaired header fields | a read-only `openSharedLog` of an existing 4096-byte zero-filled file: the write at line 205 faults and the process dies | a read-only mapping repairs nothing in the file, leaving the repair to writers | not executed | NativeMapping.MappedImage, NativeMapping.ReadOnlyZeroFileFaults | NativeMapping.MappedImageCorrected, NativeMapping.CorrectedAgrees |
