# Verification models for the Tegra VDPAU driver

The driver decodes H.264 on Tegra hardware and shows the result through VDPAU. Most of it is ioctls, X11 and register
plumbing. Six of its parts are closed pieces of logic, and these are modelled here and proved correct:

* **The NAL bit reader** (`Bits`, `Nal`, `Golomb`, `Bitstream`, `NalParse`). One cursor over escaped bytes, used by an
  aligned byte path, a multi-byte path and a scan for leading zeros. Every read is proved to be the read of a plain bit
  cursor over the RBSP of sections 7.3.1 and 7.4.1 of ITU-T H.264, for single reads and whole runs, and codes written by
  section 9.1, packed and escaped come back. Where the reader departs from the grammar the exact condition is proved.
* **The buffer-object cache** (`Lists`, `BucketTable`, `BoState`, `BoCache`). Size buckets, eviction by age, a second cache
  of mappings, counters, a handle table and reference counts. The invariants hold over every run of the public calls.
* **Two command-stream back ends** (`StreamSpec`, `SubmitV1`, `PushbufV1`, `StreamV1`, `JobV2`, `StreamV2`,
  `StreamEquivalence`). Chained buffers with a relocation table on one side, one growing array with relocations in band on
  the other. They are proved to make the hardware execute the same words exactly when relocations fit their fields.
* **References and capture slots of the decoder** (`RefOrder`, `RefSort`, `CaptureSlots`). Linked insertion around the
  current picture's POC, and the choice of V4L2 capture buffers, whose safety over whole runs rests on timestamps.
* **The presentation queue** (`PresentationQueue`). A timed scheduler and a surface state machine.
* **The overlapping 2D blit** (`Blit`). Directions that make an in-place copy act like a copy from a snapshot.

The code that works in place is modelled in place: the reader's cursor, linked nodes, arrays, growing buffers and queues
are fields that methods reassign. The records of buffer objects live in one field, a map from addresses to records, so that
freeing an object is visible: a freed address is no longer in the map, and nothing can follow a pointer to it. Lists of
such objects are sequences of addresses, and taking an object off is cutting its place out; `Lists` proves on real links that
the pointer operations do just that, but is not itself used by the cache.

Integers are unbounded, with the source's widths written out where they matter: the 8-bit count of leading zeros, the
32-bit sums of the blit's range checks, the 32-bit sizes of buffers, pages and the growing array, the 23-bit wrap of frame
numbers, the 6 and 26 bits of an in-band relocation, and the 64-bit times of the queue. `|=` on disjoint bits is addition.
Sizes times counts in the cache do not wrap, and write positions are compared as offsets into their arrays.

A raw push writes through a pointer without a check. Where the source would write outside an array the model stops with the
result `overflow`, and what is proved is exactly when that happens. Which words of an in-band stream are relocations the
kernel tells from the opcodes in front of them; `JobV2.Executed` takes it from what was written.

Some properties one would expect are false of the code. They are stated as they are, each with a concrete input and the exact
condition:

* The reader's RBSP is the grammar's exactly on data in which no `00 00 03` is followed by more than `03`
  (`Nal.ReaderSeesRbsp`, `Nal.NonconformingExample`), up to a byte behind a `00 00 03` at the very end.
* A count of leading zeros wraps at 256, so 256 zeros and a one read as 0 (`Bitstream.NarrowUeIsUe`,
  `Bitstream.WrappedCount`).
* The range check counts raw bytes, so it lets a read pass that the RBSP cannot serve exactly when escapes make up for the
  missing bytes (`NalParse.RangeCheckExact`, `NalParse.RangeCheckExample`).
* References are in order exactly when no reference at the delimiter POC stands in the way of an earlier one
  (`RefOrder.OrderedExactly`, `RefOrder.StrayExample`).
* Making room in a push buffer is enough exactly for up to 2^30 - 1024 words, as the bytes asked for wrap at 32 bits
  (`PushbufV1.PageWordsExact`, `PushbufV1.WrappedPage`, `StreamV1.WrappedPrepOverflows`); in the growing array it is exactly
  while the new size has 32 bits (`StreamV2.PreparedRoom`, `StreamV2.WrappedSize`).
* The closing word of the second interface is written without making room: outside the array exactly when that is full
  (`StreamV2.Stream.End`, `StreamV2.ClosingWord`, `StreamV2.FullJob`).
* A stream of the first interface that could not begin keeps a job that is freed, and cleaning up frees it again exactly then
  (`StreamV1.Stream.Cleanup`, `StreamV1.BeginDenied`).
* The in-band stream is executed as written, and the two interfaces agree, exactly when it refers to at most 64 buffers at
  offsets below 64 MiB (`JobV2.FitsExactly`, `StreamEquivalence.BothAgree`, `JobV2.UnfitExample`).
* The thread's timer is off exactly when no queued surface has a time below the greatest one, not only when the queue is
  empty (`PresentationQueue.NoTimer`, `PresentationQueue.TimerOffThoughWaiting`).
* A new buffer is as big as asked for exactly when that is at most 2^32 - 4096 bytes; rounding a greater request up to pages
  wraps to none (`BoCache.Drm.BoNew`, `BoCache.HugeRequest`).
* Cleaning up parked mappings reads the counter of a missing bucket exactly when an object of no bucket has had its mapping
  parked for 31 to 59 seconds (`BoCache.Drm.MmapCleanup`, `BoCache.FaultReached`), and objects of no bucket are those beyond
  112 MiB (`BucketTable.HasBucketExactly`).
* An object looked up while it idles in the cache comes back with one reference too many, so counts stay exact exactly over
  runs without such a lookup (`BoCache.Run`, `BoCache.ReawakenedTwice`).
* A second decoding of a surface that fails leaves its slot unprotected; the surface owns its slot exactly when its latest
  decoding completed (`CaptureSlots.Decoder.Render`, `CaptureSlots.SecondDecodingRejected`).
* A blit reaches the engine with a rectangle outside an image exactly when a coordinate sum wraps and all four sums are in
  range modulo 2^32 (`Blit.Blit`, `Blit.WrappedExample`).

## Model

| member | source | states |
|---|---|---|
| `Bits.PackRoundTrip` | src/bitstream.c:221-236 | Bits packed into bytes, the highest bit first, are the bits the bytes hold. |
| `Bits.ExtractField` | src/bitstream.c:241-292 | Shifting right and masking a string of bits leaves the value of the field that starts behind the skipped bits. |
| `Bits.LeadingZerosByLength` | src/bitstream.c:341-342 | The leading zeros of a byte are what its bit length leaves of eight. |
| `Nal.KeptIsUnescaped` | src/bitstream.c:185-219 | On conforming data the bytes the reader keeps are the RBSP of section 7.3.1, up to the byte behind a cut-off escape at the very end. |
| `Nal.KeptIsMore` | src/bitstream.c:194-216 | On any data the reader keeps at least the RBSP, and strictly more when the data are not conforming. |
| `Nal.ReaderSeesRbsp` | src/bitstream.c:185-219 | The reader's bytes are the RBSP if and only if the data are conforming. |
| `Nal.NonconformingExample` | src/bitstream.c:194-216 | A byte above 3 behind a 00 00 03: the RBSP has no 03, the reader keeps it. |
| `Nal.EscapeRoundTrip` | src/bitstream.c:185-219 | Unescaping what the encoder of section 7.4.1 escapes gives the bytes back. |
| `Nal.EscapeConforms` | src/bitstream.c:201-205 | What the encoder escapes is conforming, whatever zeros stand in front of it. |
| `Golomb.UeRoundTrip` | src/bitstream.c:387-413 | Reading the section 9.1 code of any codeNum below 2^32 - 1 gives it back and stops behind it. |
| `Golomb.UeIsEncoding` | src/bitstream.c:387-413 | Whatever ue(v) accepts is the encoding of the value it gives. |
| `Golomb.SeRoundTrip` | src/bitstream.c:415-422 | Reading the section 9.1.1 code of a signed value gives it back. |
| `Golomb.FirstCodes` | src/bitstream.c:387-422 | The first code words and the first signed values are those of tables 9-2 and 9-3 of ITU-T H.264. |
| `Bitstream.Reader.constructor` | src/bitstream.c:137-145 | A new reader stands in front of all bits of the data. |
| `Bitstream.Reader.EmulationEscape` | src/bitstream.c:185-219 | An escape is a 3 behind two zeros and in front of at most 3, not at the start nor the end of the data; the byte given is the first kept one at or behind the offset, and the offset moves with it when asked to. |
| `Bitstream.Reader.ReadU8NoInc` | src/bitstream.c:221-236 | The next eight pending bits, with the cursor still in front of them. |
| `Bitstream.Reader.CollectBytes` | src/bitstream.c:261-280 | The loop gathers the kept bytes a field touches, in order, into one number. |
| `Bitstream.Reader.ReadBits` | src/bitstream.c:238-293 | The value of the next pending bits at any shift, over any escapes, and the exact end of the process at the raw end of data. |
| `Bitstream.Reader.ReadU` | src/bitstream.c:317-330 | u(n): the value of the next n pending bits, which are then gone; it ends the process exactly when the raw bytes run out. |
| `Bitstream.Reader.ReadUNoInc` | src/bitstream.c:304-315 | A peek gives the value of the next n pending bits and consumes none, even when an escape byte is passed; only that of an aligned byte ends the process at the raw end of data, any other one reads on behind it. |
| `Bitstream.Reader.ReadRbspAlign` | src/bitstream.c:162-169 | The bits up to the next byte boundary are consumed, none at a boundary. |
| `Bitstream.Reader.ScanByte` | src/bitstream.c:338-359 | The rest of a byte begun is scanned: to behind its first one, or to its end. |
| `Bitstream.Reader.SkipZeroBytes` | src/bitstream.c:361-382 | Whole zero bytes are skipped, escapes among them, to behind the first one. |
| `Bitstream.Reader.SkipLeadingZeros` | src/bitstream.c:332-385 | The number of leading zeros modulo 256, and the cursor behind the one that ends them; the process ends only when the data hold no one. |
| `Bitstream.Reader.ReadUe` | src/bitstream.c:396-413 | ue(v) on the pending bits, with the count of zeros taken modulo 256; it never gives up on a code that lies in the data. |
| `Bitstream.Reader.ReadSe` | src/bitstream.c:415-422 | se(v) on the pending bits, under the same condition. |
| `Bitstream.NarrowUeIsUe` | src/bitstream.c:336-378 | The 8-bit count reads ue(v) correctly if and only if there is no one, or fewer than 256 zeros, or a remainder that is refused anyway. |
| `Bitstream.WrappedCount` | src/bitstream.c:336-378 | 256 zeros and a one are no code, but read as 0. |
| `Bitstream.UeInside` | src/bitstream.c:396-413 | A code within the data is read the same with the memory behind the data in view. |
| `Bitstream.InsideIsRaw` | src/bitstream.c:147-155 | A field within the RBSP passes the raw range check. |
| `NalParse.Step` | src/bitstream.c:162-422 | Any read that a bit cursor over the RBSP can do gives that cursor's value and leaves that cursor's rest. |
| `NalParse.Run` | src/bitstream.c:162-422 | The same for any run of u(n), peeks, ue(v), se(v) and alignments. |
| `NalParse.InsideIsKept` | src/bitstream.c:185-219 | The bits the reader has left in the data are those of the bytes it keeps. |
| `NalParse.InsideIsRbsp` | src/bitstream.c:185-219 | Those bits are the RBSP's, up to the bits of a cut-off escape. |
| `NalParse.RunAppend` | src/bitstream.c:162-422 | A run that a bit cursor can do over some bits gives the same with whole bytes behind them. |
| `NalParse.OpenNal` | src/decoder.c:150-184 | The reader stands behind the start code and the NAL header, for both lengths of start code, and is refused for others. |
| `NalParse.OpenedAtPayload` | src/decoder.c:150-184 | An opened reader sees the RBSP of the NAL unit's payload. |
| `NalParse.ParseNal` | src/decoder.c:150-184 | From memory to values: on a conforming NAL unit any run of reads gives the values a bit cursor gives over its RBSP, whatever lies behind the data and unless an escape starts in front of it. |
| `NalParse.GetSliceType` | src/decoder.c:363-378 | The slice type is the second ue(v) as the reader reads such codes; it is that of the RBSP whenever both codes lie in the data, and the process ends only when they do not. |
| `NalParse.ReadsEncoded` | src/bitstream.c:396-422 | A bit cursor reads a list of encoded values back and stops on the next bit. |
| `NalParse.SkipBits` | src/bitstream.c:317-330 | Any number of bits is passed, in fields. |
| `NalParse.ReadBack` | src/bitstream.c:137-422 | Values encoded at any start bit, packed and escaped are what the reader reads. |
| `NalParse.RangeCheckExact` | src/bitstream.c:147-155 | The range check passes a field that the RBSP cannot serve if and only if the kept bytes are too few while the raw ones are enough. |
| `NalParse.RangeCheckExample` | src/bitstream.c:147-155 | A field of four bytes passes the check for four bytes of data of which one is an escape byte. |
| `RefOrder.IsPermutation` | src/decoder.c:201-283 | The references put out are those put in, each as often. |
| `RefOrder.AlwaysNearlyOrdered` | src/decoder.c:244-280 | Whatever the input, only a frame at the delimiter can stand before an earlier one. |
| `RefOrder.IsStable` | src/decoder.c:244-280 | Frames of one POC keep the order of their slots. |
| `RefOrder.OrderedExactly` | src/decoder.c:231-280 | Earlier POCs descend and later ones ascend behind them if and only if no frame at the delimiter strays. |
| `RefOrder.NoDelimiterNoStray` | src/decoder.c:236-238 | Without a POC at the delimiter none strays. |
| `RefOrder.StrayExample` | src/decoder.c:236-260 | A frame at the delimiter in front of an earlier one leaves the list out of order. |
| `RefOrder.EarlierKept` | src/decoder.c:284-290 | The number of earlier frames does not depend on the order. |
| `RefOrder.EarlierComeFirst` | src/decoder.c:284-290 | In an ordered list the earlier frames are exactly the first ones. |
| `RefOrder.SortedRefs` | src/decoder.c:185-293 | All of it at once, for any list of references. |
| `RefSort.LinkBefore` | src/decoder.c:266-279 | Relinking puts the node in front of its successor and keeps all others in order. |
| `RefSort.LinkLast` | src/decoder.c:257-260 | A node joins at the end. |
| `RefSort.InsertNode` | src/decoder.c:231-280 | The walk puts a node where the order wants it. |
| `RefSort.CopyFrames` | src/decoder.c:284-290 | The table holds the listed frames from its second entry on and nothing else changes; the earlier ones are counted. |
| `RefSort.SortReferences` | src/decoder.c:201-283 | All present references are numbered and sorted in, whatever the slots between them; a surface is numbered by the last slot that names it. |
| `RefSort.FramesAreNumbered` | src/decoder.c:214-217 | With a wrap a surface gets, in 23 bits, the index of the last slot that names it less the greatest frame number; without one no frame changes. |
| `RefSort.OrderIs` | src/decoder.c:201-283 | The references in slot order are a permutation of themselves after insertion, stable, ordered if and only if there is no stray, and then the earlier ones are the first ones. |
| `RefSort.GetRefsSorted` | src/decoder.c:185-293 | The frame table holds each present reference once from its second entry on, in an order that is stable, and sorted around the delimiter if and only if none strays; the count of earlier ones is then the length of its first run; with a wrap frame numbers are the frame index less the greatest one modulo 2^23, without one they are as they were, and nothing else changes. |
| `CaptureSlots.BusySlotsBound` | src/decoder.c:741-768 | Slots with different timestamps, each held by a reference, are no more than the references. |
| `CaptureSlots.Decoder.FindOwn` | src/decoder.c:720-730 | The slot that still belongs to the surface, or none. |
| `CaptureSlots.Decoder.FindUnreferenced` | src/decoder.c:741-763 | The first slot whose timestamp is that of no reference. |
| `CaptureSlots.Decoder.ChooseSlot` | src/decoder.c:720-768 | The slot is the surface's own, else an unset one, else one no reference holds; with more slots than references there always is one. |
| `CaptureSlots.Decoder.FillDpb` | src/decoder.c:608-652 | An entry is unused if and only if there is no reference, or one without a buffer, out of the cache, or whose slot has another surface; any other has the reference's POC and the timestamp of its slot. |
| `CaptureSlots.Decoder.Commit` | src/decoder.c:822-824 | Exactly the chosen slot changes hands. |
| `CaptureSlots.Decoder.Decode` | src/decoder.c:685-839 | What a request changes in every case of refusal, failure and completion, which pictures are refused, and the list it sends entry by entry; timestamps stay pairwise different, and the overflow is out of reach with more slots than references. |
| `CaptureSlots.Decoder.Render` | src/decoder.c:1176-1188 | No listed surface loses its slot, each is named by its own decoding, empty places and the decoded surface itself are sent as unused, and the decoded surface owns its slot exactly when the request completed. |
| `CaptureSlots.SecondDecodingRejected` | src/decoder.c:1176-1188 | A surface decoded once, whose second decoding is rejected, is listed and does not own its slot. |
| `CaptureSlots.Run` | src/decoder.c:608-839 | Over any run in which a surface stays in use, every list names it by its latest decoding, and names nothing where the picture refers to nothing. |
| `PresentationQueue.Target.ToIdleState` | src/presentation_queue_target.c:22-51 | Only a visible surface becomes idle and leaves the target. |
| `PresentationQueue.Target.Display` | src/presentation_queue_target.c:602-651 | The surface is the only visible one; the one before it is idle unless it is queued again. |
| `PresentationQueue.NextWakeIsLeast` | src/presentation_queue.c:72-113 | The next wake-up is no later than any waiting surface's time, and at one of them if it is at all. |
| `PresentationQueue.NoTimer` | src/presentation_queue.c:111-121 | The timer is off if and only if no waiting surface has a time below the greatest one. |
| `PresentationQueue.TimerOffThoughWaiting` | src/presentation_queue.c:111-121 | A surface queued for the greatest time waits with the timer off. |
| `PresentationQueue.SplitInTwo` | src/presentation_queue.c:76-105 | A pass neither loses nor doubles an entry: each is due or waits. |
| `PresentationQueue.Queue.Request` | src/presentation_queue.c:334-392 | A queued surface is refused; others are shown at once, at the present time, or join the end of the queue, which signals the thread; no other surface's times change. |
| `PresentationQueue.Queue.Pass` | src/presentation_queue.c:72-111 | Exactly the due surfaces are shown, in queue order, only the last one waiting for the vertical blank, and report the present time as their first; the others stay in order. |
| `PresentationQueue.Queue.Wake` | src/presentation_queue.c:34-122 | The same for a wake-up, at the time set or the time read, with every surface's status and time of first showing afterwards, and the thread armed for the next surface. |
| `PresentationQueue.Queue.Exit` | src/presentation_queue.c:47-66 | When the thread ends the queue is empty and every surface idle. |
| `PresentationQueue.LaterIsLater` | src/presentation_queue.c:76-105 | What a pass leaves waits for a later time. |
| `PresentationQueue.Handle` | src/presentation_queue.c:334-392 | An event does to what waits, to what has been shown and to the thread's timer exactly what it should: a request is accepted if and only if its surface does not wait; a wake-up shows what is due, in order, and keeps the rest. |
| `PresentationQueue.Run` | src/presentation_queue.c:34-392 | Any run is the events one by one: which requests are accepted, what is shown and what waits are fixed by them; each accepted one is shown once or still waits, queued is the same as listed, only the displayed surface is visible, the timer is no later than any waiting surface, and nothing due is left behind a signalled wake-up. |
| `Blit.Setup` | src/host1x-gr2d.c:371-390 | The chosen corner and directions walk the same rectangles, and within one buffer never overwrite a pixel before it is read. |
| `Blit.Execute` | src/host1x-gr2d.c:371-421 | Pixel by pixel in a safe order, the image is that of a copy from a snapshot. |
| `Blit.Blit` | src/host1x-gr2d.c:253-421 | A blit in range acts like a copy from a snapshot for all overlaps, one out of range changes nothing, and the engine is sent outside an image if and only if some sum wraps and all four are in range modulo 2^32. |
| `Blit.WrappedExample` | src/host1x-gr2d.c:342-348 | One column from coordinate 2^32 - 1 passes the checks. |
| `Blit.SafeDirections` | src/host1x-gr2d.c:371-390 | For overlapping rectangles an order is safe if and only if it runs against the move. |
| `SubmitV1.ApplyOwn` | src/tegradrm/uapi_v1/pushbuf.c:182-213 | A buffer's relocations patch exactly its placeholders. |
| `SubmitV1.PageExecuted` | src/tegradrm/uapi_v1/job.c:113-180 | Among the relocations of a whole job each buffer is executed as what was written to it. |
| `SubmitV1.Executes` | src/tegradrm/uapi_v1/job.c:113-180 | The hardware executes what was written to the buffers, in order, wherever buffers are. |
| `PushbufV1.PageWordsExact` | src/tegradrm/uapi_v1/pushbuf.c:145-154 | The 32-bit rounding asks for enough words if and only if they are at most 2^30 - 1024, and for nothing only in the last 1024 below a multiple of 2^30. |
| `PushbufV1.PageWordsIs` | src/tegradrm/uapi_v1/pushbuf.c:145-154 | Whole pages of 1024 words are asked for, modulo 2^30 words. |
| `PushbufV1.WrappedPage` | src/tegradrm/uapi_v1/pushbuf.c:145-154 | A request of 2^30 + 1 words asks for a single page. |
| `PushbufV1.PreparedRoom` | src/tegradrm/uapi_v1/pushbuf.c:141-177 | When making room succeeds, the words fit if and only if they did before or are at most 2^30 - 1024; a first buffer has room for a page. |
| `PushbufV1.Pushbuf.Queue` | src/tegradrm/uapi_v1/pushbuf.c:47-72 | The current buffer goes to the job once, with all its words, and the stream stays the same. |
| `PushbufV1.Pushbuf.Prepare` | src/tegradrm/uapi_v1/pushbuf.c:125-180 | It succeeds exactly when the words are not 0 and fit, with one to spare, the buffer or a granted one of some bytes, and only then is a buffer begun; they are in bounds if and only if their bytes have 32 bits; room promised before still is; a first buffer has a page; and no word is lost, doubled or moved by a switch of buffers. |
| `PushbufV1.Pushbuf.Push` | src/tegra_stream.h:282-292 | One word joins the end of the stream, in bounds. |
| `PushbufV1.Pushbuf.Relocate` | src/tegradrm/uapi_v1/pushbuf.c:182-213 | One relocation joins the stream, entered at the place of its own placeholder, which is written there, and uses up at most one word of the room. |
| `PushbufV1.Pushbuf.Sync` | src/tegradrm/uapi_v1/pushbuf.c:215-238 | The two words of a sync point increment join the stream, for any sync point, and it is counted. |
| `PushbufV1.SyncFields` | src/tegradrm/uapi_v1/pushbuf.c:232-233 | A sync point below 256 stands below its condition in the word. |
| `PushbufV1.Pushbuf.Submit` | src/tegradrm/uapi_v1/job.c:113-180 | What is submitted is executed as the stream, for every placement of buffers, and no two command buffers share one. |
| `StreamV1.Stream.Begin` | src/tegra_stream_v1.c:209-241 | Only a free stream begins, with an empty job and room for a page; without a first buffer the freed job stays in the stream. |
| `StreamV1.Stream.Cleanup` | src/tegra_stream_v1.c:68-78 | The stream is free; after a failed begin its job is freed a second time, and only then. |
| `StreamV1.BeginDenied` | src/tegra_stream_v1.c:209-241 | Without a first buffer, beginning and cleaning up frees the job twice. |
| `StreamV1.Stream.Prep` | src/tegra_stream_v1.c:342-358 | Room is made, unless the bytes asked for wrap at 32 bits, or the stream has failed for good. |
| `StreamV1.Stream.PushReloc` | src/tegra_stream_v1.c:243-259 | A relocation joins the stream, or the stream has failed for good. |
| `StreamV1.Stream.End` | src/tegra_stream_v1.c:261-287 | A stream under construction becomes ready with its closing words, or has failed. |
| `StreamV1.Stream.Submit` | src/tegra_stream_v1.c:121-163 | Only a ready stream is submitted; the stream is free in any case. |
| `StreamV1.DisciplinedStaysInside` | src/tegra_stream_v1.c:209-358 | A stream that pushes no more than a page, or than it prepared for, never writes outside its buffers, and goes on while it gets buffers. |
| `StreamV1.PageOverflows` | src/tegra_stream.h:282-292 | Raw words behind the start of a page overflow it exactly from the 1025th on. |
| `StreamV1.WrappedPrepOverflows` | src/tegradrm/uapi_v1/pushbuf.c:145-154 | Preparing for 2^30 + 1 words succeeds, and pushing 1025 of them overflows. |
| `StreamV1.DisciplinedCompletes` | src/tegra_stream_v1.c:121-358 | Such a stream is submitted whenever it gets its buffers. |
| `StreamV1.Run` | src/tegra_stream_v1.c:121-358 | For any calls: a whole stream is executed as it was written, is submitted if and only if all its calls succeed, and overflows if and only if a raw word has no place in its buffer. |
| `JobV2.RelocExact` | src/tegradrm/opentegra_drm.h:770-797 | A relocation word means its target for every placement of buffers if and only if index and offset fit 6 and 26 bits. |
| `JobV2.EncodeInBits` | src/tegradrm/opentegra_drm.h:770-797 | The offset stands above six bits of index, and both are cut to their fields. |
| `JobV2.ExecutesExactly` | src/tegradrm/uapi_v2/job.c:152-218 | A job is executed as written if and only if all its relocations can be expressed. |
| `JobV2.FitsExactly` | src/tegradrm/uapi_v2/job.c:161-183 | All relocations can be expressed if and only if they refer to at most 64 buffers at offsets below 64 MiB. |
| `JobV2.UnfitExample` | src/tegradrm/uapi_v2/job.c:181-194 | A relocation at an offset of 64 MiB is stored and executed as one at offset 0. |
| `JobV2.Job.constructor` | src/tegradrm/uapi_v2/job.c:14-64 | A new job is empty and has the words expected, 64 at least. |
| `JobV2.Job.Resize` | src/tegradrm/uapi_v2/job.c:66-127 | Growing keeps every word, every table entry in use and the write position. |
| `JobV2.Job.EntryOf` | src/tegradrm/uapi_v2/job.c:161-180 | A known buffer leaves the table as it is, a new one joins its end with the flags given, and handles stay pairwise different. |
| `JobV2.StoresMore` | src/tegradrm/uapi_v2/job.c:161-180 | Relocations written before keep their meaning when the table grows. |
| `JobV2.Job.Grow` | src/tegradrm/uapi_v2/job.c:186-193 | A full array grows by 256 words, unless that size does not fit 32 bits. |
| `JobV2.Job.PushReloc` | src/tegradrm/uapi_v2/job.c:152-197 | One relocation joins the stream, and all others still mean their targets after any growth; the table gains its buffer with its flags if that is new, and nothing else; there is no room for it if and only if the array is full and 256 words more do not fit 32 bits. |
| `JobV2.Job.Submit` | src/tegradrm/uapi_v2/job.c:199-218 | The submission is executed as the stream, for every placement of buffers, if and only if it fits. |
| `StreamV2.PreparedRoom` | src/tegra_stream_v2.c:280-305 | Preparing makes room if and only if the new size has 32 bits, which is when the array does not shrink. |
| `StreamV2.WrappedSize` | src/tegra_stream_v2.c:284-292 | Preparing a new job for 2^32 - 65536 words leaves it without any. |
| `StreamV2.Stream.Begin` | src/tegra_stream_v2.c:232-243 | Only a free stream begins. |
| `StreamV2.Stream.Prep` | src/tegra_stream_v2.c:280-305 | The words asked for are in bounds if and only if the sum of sizes has 32 bits; a sum that wraps leaves written words outside if and only if it is below the write position. |
| `StreamV2.Stream.PushReloc` | src/tegra_stream_v2.c:245-261 | A relocation joins the stream, making room for itself unless the size wraps. |
| `StreamV2.Stream.End` | src/tegra_stream_v2.c:263-278 | A stream under construction becomes ready with its closing word, which is written outside the array if and only if that is full. |
| `StreamV2.Stream.Submit` | src/tegra_stream_v2.c:72-156 | Only a ready stream is submitted, with every buffer of its table marked as written to; in any case it is free afterwards, and a free stream has an empty job. |
| `StreamV2.DisciplinedIsContained` | src/tegra_stream_v2.c:232-305 | A stream that pushes no more than the array has, or than it prepared for, stays in the array while sizes have 32 bits. |
| `StreamV2.ClosingWord` | src/tegra_stream_v2.c:263-278 | With its closing word a stream is contained if and only if it is without it and does not fill the array. |
| `StreamV2.FullJob` | src/tegra_stream_v2.c:263-278 | Pushing exactly as many words as there is room for is contained, and the closing word behind them is not. |
| `StreamV2.Run` | src/tegra_stream_v2.c:72-305 | For any calls: a whole stream overflows its array if and only if it is not contained with its closing word; otherwise it is executed as it was written if and only if it fits the relocation words, and every buffer of its table is marked as written to. |
| `StreamEquivalence.DisciplinedFitsBoth` | src/host1x-gr2d.c:73-97 | Calls that push no more than a page beyond what they prepare for are submitted by the first interface and contained in the second; only its closing word may be one too many, in a full array. |
| `StreamEquivalence.AgreeExactly` | src/tegra_stream.h:225-292 | What the second interface executes is the same as in the first, up to the closing words and wherever buffers are, if and only if it is what was written. |
| `StreamEquivalence.BothAgree` | src/tegra_stream.h:225-292 | For any calls: when both interfaces submit, they make the hardware execute the same words up to the closing ones, wherever buffers are, if and only if the stream fits the relocation words. |
| `Lists.Add` | src/tegradrm/lists.h:46-52 | The item is the first of the circle, the others behind it in order. |
| `Lists.AddTail` | src/tegradrm/lists.h:54-60 | The item is the last of the circle. |
| `Lists.Del` | src/tegradrm/lists.h:62-66 | The circle closes without the item, whose own pointers dangle. |
| `Lists.DelInit` | src/tegradrm/lists.h:68-74 | The same, and the item can be told to be on no list. |
| `Lists.Empty` | src/tegradrm/lists.h:79-79 | The test for an empty list is right. |
| `Lists.KeptIs` | src/tegradrm/lists.h:104-111 | What a walk leaves are exactly the items that are not deleted. |
| `Lists.KeptInOrder` | src/tegradrm/lists.h:104-111 | They stay in order: what is left of later items comes behind what is left of earlier ones. |
| `Lists.ItemsAreNotAlone` | src/tegradrm/lists.h:79-79 | No item of a list passes for being on none. |
| `Lists.Sweep` | src/tegradrm/lists.h:104-111 | A safe walk that deletes any of the items leaves exactly the others, in order. |
| `BucketTable.SizesIncrease` | src/tegradrm/tegra_bo_cache.c:84-111 | Sizes strictly increase, for any greatest size, coarse or fine. |
| `BucketTable.SizeIs` | src/tegradrm/tegra_bo_cache.c:98-110 | The fine sizes in numbers: one, two and three pages, then four to each doubling from four pages on. |
| `BucketTable.CoarseSizeIs` | src/tegradrm/tegra_bo_cache.c:98-110 | The coarse sizes are one page and its doublings. |
| `BucketTable.RungGaps` | src/tegradrm/tegra_bo_cache.c:103-110 | Neighbouring sizes of the fine table are at most a quarter apart. |
| `BucketTable.BucketIsLeast` | src/tegradrm/tegra_bo_cache.c:171-211 | The bucket found is the least of its kind that is big enough. |
| `BucketTable.NoBucketExactly` | src/tegradrm/tegra_bo_cache.c:184-210 | There is no bucket if and only if nothing contiguous is big enough, nor anything sparse for a sparse request, and a sparse request gets a contiguous one only when nothing sparse is big enough. |
| `BucketTable.OwnKind` | src/tegradrm/tegra_bo_cache.c:184-204 | A request for sparse memory finds a sparse bucket if it finds any. |
| `BucketTable.BucketIsStable` | src/tegradrm/tegra_bo_cache.c:171-216 | Looking up the size of the bucket found finds it again. |
| `BucketTable.WasteIsBounded` | src/tegradrm/tegra_bo_cache.c:84-111 | A request of whole pages that has a bucket wastes at most a quarter of its size. |
| `BucketTable.GetBucket` | src/tegradrm/tegra_bo_cache.c:171-211 | The loops find the bucket of the request. |
| `BucketTable.AddClasses` | src/tegradrm/tegra_bo_cache.c:84-111 | The loop adds exactly the sizes of the table, in order, for any greatest size. |
| `BucketTable.TableFits` | src/tegradrm/tegra_bo_cache.c:38-49 | Both kinds fit the array of 112 buckets, and the greatest bucket is of 112 MiB. |
| `BucketTable.HasBucketExactly` | src/tegradrm/tegra_bo_cache.c:171-211 | A request has a bucket if and only if it is for no more than 112 MiB. |
| `BoState.CleanupIsComplete` | src/tegradrm/tegra_bo_cache.c:51-168 | In numbers: a bucket of more than 16 KiB, or with more than 64 KiB in it, has no object of 300 seconds left, any other loses none; each object freed was beyond 30 seconds, beyond 60 or not among fewer than five, and beyond 300 or with 4 MiB in the bucket, and the first one kept was not; at time 0 all are freed. The ordering by age makes stopping early complete. |
| `BoState.KeptPass` | src/tegradrm/tegra_bo_cache.c:385-421 | A mapping of more than 30 seconds that a clean-up keeps belongs to a bucket with few of them by the final counters. |
| `BoState.GoneDidNotPass` | src/tegradrm/tegra_bo_cache.c:385-421 | One that a clean-up gives up did not belong to such a bucket by the counters at the start. |
| `BoState.FaultExample` | src/tegradrm/tegra_bo_cache.c:395-407 | An object of a page more than 112 MiB, parked for 40 seconds, makes the clean-up read the missing counter. |
| `BoState.MappingsCounted` | src/tegradrm/tegra.c:541-654 | As many mappings are live as there are objects that hold one. |
| `BoState.OwnedSurvives` | src/tegradrm/tegra.c:507-529 | An object with owners outlives every call on others as the same object, with its owners, and in no bucket; owners of others do not change. |
| `BoState.ExactKeeps` | src/tegradrm/tegra.c:496-529 | A call on one object that does not change how many of its references nobody holds keeps all counts exact, or an inexact one inexact. |
| `BoCache.Drm.CacheMap` | src/tegradrm/tegra_bo_cache.c:454-477 | The parked mapping is handed over, the list and the counters follow. |
| `BoCache.Drm.BoFree` | src/tegradrm/tegra.c:203-267 | The object, its handle and its one mapping are gone, and nothing else is. |
| `BoCache.Drm.FreeHead` | src/tegradrm/tegra_bo_cache.c:133-164 | The oldest object of a bucket is destroyed and all invariants hold. |
| `BoCache.Drm.CleanBucket` | src/tegradrm/tegra_bo_cache.c:126-165 | What is left of a bucket is what the rules of age, number and size leave, in numbers. |
| `BoCache.Drm.Cleanup` | src/tegradrm/tegra_bo_cache.c:114-168 | The same for all buckets, unless it is the second time in a row; only idle objects go; at time 0 every bucket is empty, even when nothing is done. |
| `BoCache.Drm.PutInBucket` | src/tegradrm/tegra_bo_cache.c:347-362 | An object joins the end of its own bucket, which stays ordered by age. |
| `BoCache.Drm.CacheFree` | src/tegradrm/tegra_bo_cache.c:330-366 | An object whose last reference goes idles at the end of its own bucket, if it has one, and every bucket is left as a clean-up leaves it. |
| `BoCache.Drm.MmapCleanup` | src/tegradrm/tegra_bo_cache.c:368-424 | The mappings still parked are those the rules of age and number keep, with the counters as they fall: none of 30 seconds or less goes, an older one stays only in a bucket with few by the final counters and goes only from one with more by the first; the missing counter is read if and only if an object of no bucket has been parked for 31 to 59 seconds. |
| `BoCache.Drm.SmallIsSafe` | src/tegradrm/tegra_bo_cache.c:395-407 | With no object beyond 112 MiB that never happens. |
| `BoCache.AlignedExact` | src/tegradrm/private.h:50-51 | Rounding up to pages in 32 bits gives the least whole pages that are enough if and only if at most 2^32 - 4096 bytes are asked for, else none. |
| `BoCache.RoundedExact` | src/tegradrm/tegra_bo_cache.c:302-308 | The same for the size of the bucket. |
| `BoCache.HugeRequest` | src/tegradrm/tegra_bo_cache.c:302-308 | A request of 2^32 - 4095 bytes is rounded to one page. |
| `BoCache.Drm.Park` | src/tegradrm/tegra_bo_cache.c:426-452 | A mapping moves to the end of the parked ones behind a clean-up, and the counters follow. |
| `BoCache.Drm.Revive` | src/tegradrm/tegra_bo_cache.c:231-293 | An idle object is taken into use with one reference, unmapped, of its bucket's size and on no bucket list; the mappings are cleaned up only if it was still mapped. |
| `BoCache.Drm.CacheAlloc` | src/tegradrm/tegra_bo_cache.c:295-328 | The oldest object of the bucket if there is one and it is not busy, else none, never one of the other kind; and the size to ask the kernel for, which is enough if and only if rounding up to pages does not wrap. |
| `BoCache.Drm.Create` | src/tegradrm/tegra.c:384-444 | The kernel is asked once more when nothing idles any longer; only idle objects went, and if it had to be asked again all of them. |
| `BoCache.Drm.BoNew` | src/tegradrm/tegra.c:364-449 | The object has one owner and had none before; it is the oldest of its bucket whenever there is one and it is not busy, else a new one if the kernel has any, of the kind asked for and the bucket's size; and it is at least as big as asked for if and only if at most 2^32 - 4096 bytes are. |
| `BoCache.Drm.Lookup` | src/tegradrm/tegra.c:40-67 | The object of the handle, with one owner more; one that idled is counted once too often. |
| `BoCache.Drm.Wrap` | src/tegradrm/tegra.c:451-494 | The one object of the handle, known or new; a new one has the size and kind given and is never cached. |
| `BoCache.Drm.Ref` | src/tegradrm/tegra.c:496-505 | One owner more, one reference more. |
| `BoCache.Drm.Unref` | src/tegradrm/tegra.c:507-529 | One owner less; the object stays, idles or is gone, by its count, its bucket and its permission to be cached. |
| `BoCache.Drm.Map` | src/tegradrm/tegra.c:541-629 | An object has at most one mapping: the one in use, else the parked one, else a new one. |
| `BoCache.Drm.Unmap` | src/tegradrm/tegra.c:631-654 | The last unmapping parks the mapping, one too many does nothing. |
| `BoCache.Drm.Close` | src/tegradrm/tegra.c:349-362 | Nothing that idled is left over. |
| `BoCache.OwnedIsThere` | src/tegradrm/tegra.c:40-67 | An owned object is in no bucket and found by its handle. |
| `BoCache.PerformOn` | src/tegradrm/tegra.c:496-654 | A call that names an object does to it what its kind says, changes its references so, keeps it the same object, and leaves alone what is counted but not held. |
| `BoCache.AllChanged` | src/tegradrm/tegra.c:364-654 | A call on one object changes the references of all objects as its entry in the log says. |
| `BoCache.Perform` | src/tegradrm/tegra.c:364-654 | Any permitted call has the effect of its kind, and changes the references of all objects by what it hands out or takes back; an owned object stays the same one while references are left and is never handed out as new; counts are exact after it if and only if they were and it looked up no idle object, which is when it hands out a known object that nobody owned. |
| `BoCache.Run` | src/tegradrm/tegra.c:364-654 | Any run, up to the first call that is not permitted, is a chain of its calls' effects and a ledger: every object has the references handed out less those given back; while that is positive it exists, in no bucket, found by its handle, and is not handed out as new; owned throughout it is the same one; and counts stay exact if and only if no wrap in the log hands out a known object with balance 0. |
| `BoCache.ReawakenedTwice` | src/tegradrm/tegra.c:40-67 | An object created, given back and looked up by its handle is counted twice and owned once. |
| `BoCache.FaultReached` | src/tegradrm/tegra_bo_cache.c:395-407 | Creating, mapping and unmapping an object beyond 112 MiB makes the clean-up 40 seconds later read the missing counter. |

## Left out

- Ioctls, X11, Xv, DRI2, pixman, V4L2, media requests and fences: results are parameters of the methods. The kernel hands out
  handles and mappings that are not in use, and clocks do not run backwards (the decoder's strictly advances).
- Threads and locks: a call is one atomic step. The queue's thread is taken to wait before the first request.
- Bitstream.Reader.ReadUNoInc: the memory a peek reaches is taken to be readable, as nothing checks it.
- Bitstream.Reader.ReadUe: eight bytes of memory behind the data are taken to be readable, as the range check does not count
  escapes; `NalParse.RangeCheckExact` says when they are read.
- The reader's error flag and its mode without escapes, which nothing sets, and the reading of whole words.
- Logging, debug counters, valgrind hooks, guards around buffers and names of buffers. Guards would move offsets.
- Buffers opened by name or from a dma-buf: they are entered without a bucket link of their own.
- Tiling and kernel flags of a reused buffer, except for being sparse or not.
- BoCache.Drm.MmapCleanup: time 0 is not a parameter of it, as every caller passes the clock.
- BoCache.Drm.Park: clean-up comes before the object's own fields are set; it does not look at them.
- BoCache.Drm.Lookup: the object leaves its bucket before its count is reset, within one step.
- Failing allocations of plain memory, and `reallocate` without copying, which nobody asks for.
- Pushing a block of words with relocations: it passes variable arguments on in a way that is not defined.
- Waiting for a sync point inside a stream: the two interfaces write different words for it. The closing words differ too and
  are told apart in `StreamEquivalence.BothAgree`.
- Releasing the buffers of a job. Destroying a stream frees its job like `StreamV1.Stream.Cleanup`.
- StreamV1.Stream.Submit: what the kernel answers is left out, as the job is freed in any case.
- Blit.Blit: plain copies of a height that is not negative; rotations, flips and the tile offsets that only they use are left
  out, and so are the registers.
- The older decoding interface's context besides its sorted references, and the picture numbers sent with a reference.
- CaptureSlots.Decoder.Decode: the calls into the kernel before completion are one refusal, as none of them changes a slot.
- Recycling of surfaces whose handle is destroyed, shared surfaces and mixers.
- Several queues on one target, the reference counts of surfaces, prepared buffers, borders, and the times at which surfaces
  were first shown beyond one clock reading a pass.
- Colour conversion, GR3D set-up and the shader assembler.
