# The GPU driver's shared data structures, verified

A Dafny model of the parts of the PowerVR kernel driver that keep data in order between the
host, the firmware and the clients, with proofs of what they keep:

- **Intrusive lists** (`include/dllist.h`): nodes with two links on a heap. `Dllist` is the
  header's operations on the links, each proved against the sequence it produces;
  `SelectionSort` is the order that `dllist_sort` produces; `ListHeap` is any number of lists
  at once and any run of operations on them.
- **Integer logarithms** (`include/log2.h`): both implementations, and why they agree. `Bits`
  and `Fields` define the operators on words as naturals.
- **Transport-layer streams** (`include/pvrsrv_tlcommon.h`, `services/server/common/tlstream.c`):
  `TlPacket` is the header word, `PacketChain` the walk of a reader, `StreamRing` the circular
  buffer as a value and `TlStream` the stream as an object, with its three overflow policies.
  `TlTrace` is what calls on a stream do, as steps between values. `TlSession` (with
  `services/server/common/tlserver.c` and `services/shared/common/tlclient.c`) is a writer and a
  reader that use one stream in turns, and `TlCases` reaches, from a new stream, the states in
  which the conditions found fail.
- **HWPerf packets** (`include/rgx_hwperf_common.h`, `services/server/devices/rgxhwperf_common.c`):
  `HwPerf` is the format and its nesting in stream packets, `HwPerfCopy` the copy from the
  firmware's buffer into a stream.
- **Client circular command buffer** (`services/server/devices/rgxccb.c`,
  `include/rogue/rgx_fwif_shared.h`): `CccbRing`, `CccbTrace` and `Cccb`, with padding, growing,
  kicks on their way, and the firmware's two offsets. The host's steps are those of the code; the
  firmware's are built from the comment on the control structure and from the walk in the
  host's dump code.
- **Runs** of both: `Traces` says what a sequence of states and steps adds up to.
- **Timer correlation** and **GPU utilisation** (`include/rogue/rgx_fwif_km.h`): `TimeCorr` and
  `GpuUtil`.
- **Two small pieces**: `Strlcpy` (`config_kernel_sunxi_a133.h`) and `LogLookup`
  (`include/rgxfw_log_helper.h`, `include/rgx_fwif_sf.h`).

Buffers of the streams and rings are arrays of 8-byte cells, each two 32-bit words, because
every header and every rounded size in them is a multiple of 8. 32- and 64-bit wrap-around is
written out where it can occur. Each step of host and firmware is atomic.

Points that a reader of the sources may not expect; where code and documentation differ the model
follows the code:

- `dllist_sort` is documented as an insertion sort. It drains the list into a temporary one,
  which reverses it, and then selects the smallest node again and again. Tied nodes therefore
  come out in reverse order under a strict comparator, and in their order under a lax one.
- The timer correlation is documented to be good for "slightly more than 5hrs" at every clock. It
  takes the clock rounded to kHz. Up to that rounding the conversion is as exact as the integer
  division allows until the 64-bit product wraps. That is not before 2^44 ns, about 4.9 hours, for
  clocks that are not rounded down, and before five hours for clocks from 22 kHz on. Clocks that
  are rounded down may be converted to more than the true time, and very slow ones wrap before
  2^44 ns or after five hours.
- The id tables are documented as increasing, so that a binary search could be used. The
  parameter count stands above the group in an id, so they are not.
- The client buffer's write offset is documented to be aligned to 16 bytes. Sizes are rounded
  up to 8 only, and the offset moves by their sum over a submission. It stays aligned exactly
  while all these sums are multiples of 16. A kick-sync that waits for one sync object takes 40
  bytes.
- The largest packet of a stream is to fit an empty stream wherever its offsets stand, by
  dividing the size by 2.5. That holds from 152 bytes on, and below for 120 and 136 only.
- A `DROP_OLDEST` stream makes room by dropping, except when a single cell is free. The room
  is then negative, is compared as an unsigned number, and the reservation fails with a stream
  error. Nothing is dropped, and yet the oldest packet is flagged as if something were. A stream
  comes to this when it is switched from `DROP_NEWER` after a failed write was noted; one that
  is never in `DROP_NEWER` never does.
- The size that a full stream suggests is what fits between the write offset and the end of the buffer
  with 16 bytes to spare, if that is more than the caller's least size. These two cells may
  also be the first ones of the buffer, so a larger packet would fit unless the read offset is at
  the start.
- A drop is announced by a flag on the oldest packet left. When all packets are dropped none is
  left, and the flag goes into a header that is overwritten.
- The read-pending flag is meant to keep the read offset safe while a reader holds a piece. It is
  set by acquiring in `DROP_OLDEST` only. When a stream is switched to `DROP_OLDEST` while a piece
  is held, as `services/server/common/htbserver.c:694` may do, a writer drops packets of
  that piece, and the reader's release then passes over packets it has not seen. When the stream is
  switched away and back around a release, the flag stays set with no reader, and writers without
  room wait.
- The firmware's HWPerf packets are copied while they stay below the largest stream packet. When
  the first one waiting is not below it, and others wait behind it, nothing is ever copied, and
  copying is not suspended either.
- Whether the last packet notes a failed write is read from the 8 bytes before the write offset.
  These are data, unless the packet is empty.
- Committing less than was reserved leaves the header's length as it was, and a reader steps
  past the write offset unless both sizes round up to the same.
- A request of nearly 2^32 bytes rounds up to 0 and passes the stream's size limit.

## Model

| member | source | states |
|---|---|---|
| SelectionSort.SortedIsOrderedPermutation | include/dllist.h:377-406 | the sort loses, adds and repeats nothing for any comparator, and orders the list for one consistent with a total preorder |
| SelectionSort.OrdersEveryListIffConsistent | include/dllist.h:355-406 | a comparator sorts every list over given elements if and only if it swaps for strictly smaller nodes and never for strictly greater ones |
| SelectionSort.SortedTies | include/dllist.h:385-404 | tied nodes come out reversed under a strict comparator and in original order under one that is also true on ties |
| SelectionSort.PickIsLeast | include/dllist.h:393-402 | the scan's candidate is least among the nodes looked at |
| SelectionSort.PickAmongTies | include/dllist.h:393-402 | a strict scan keeps the first of the least nodes, a lax one the last |
| SelectionSort.DrainIsOrdered | include/dllist.h:391-405 | taking the picked node again and again yields an ordered list |
| Dllist.Init | include/dllist.h:136-140 | a head alone is the empty ring |
| Dllist.IsEmpty | include/dllist.h:152-156 | true exactly for the empty ring |
| Dllist.AddToHead | include/dllist.h:169-181 | the node comes first on the same ring |
| Dllist.AddToTail | include/dllist.h:194-206 | the node comes last on the same ring |
| Dllist.NodeIsInList | include/dllist.h:217-221 | yes for every node of a ring, head or element, and no for a node that was zeroed or removed |
| Dllist.GetNextNode | include/dllist.h:233-245 | the first node, or null for the empty list |
| Dllist.GetPrevNode | include/dllist.h:256-268 | the last node, or null for the empty list |
| Dllist.RingFromElement | include/dllist.h:233-268 | any element may stand in for the head, which then counts among the nodes |
| Dllist.RemoveNode | include/dllist.h:278-286 | just that node leaves the ring, and its links are null |
| Dllist.ReplaceHead | include/dllist.h:301-324 | the whole sequence moves to the new head and the old one heads the empty ring, also when both are one empty head |
| Dllist.InsertListAtHead | include/dllist.h:338-353 | the inserted list precedes the other, and its own head heads the empty ring |
| Dllist.ForeachNode | include/dllist.h:90-93 | with any removal of current nodes in the body, every original node is visited once in order; the kept ones stay in order and the removed ones are unlinked |
| Dllist.ForeachNodeBackwards | include/dllist.h:95-98 | the same in reverse order |
| Dllist.DrainToTemp | include/dllist.h:383-389 | the first phase empties the list onto the temporary head, reversed |
| Dllist.FindSmallest | include/dllist.h:393-402 | the inner scan returns the picked node |
| Dllist.SelectFromTemp | include/dllist.h:391-405 | the second phase empties the temporary head back onto the list in selected order |
| Dllist.Sort | include/dllist.h:377-406 | for any comparator terminates with the ring of the sorted sequence of the same node objects |
| ListHeap.ApplyKeepsDisjoint | include/dllist.h:135-353 | every operation keeps lists pairwise disjoint and heads apart from elements |
| ListHeap.ApplyKeepsNodes | include/dllist.h:135-406 | no operation loses or adds a node |
| ListHeap.ApplyShows | include/dllist.h:135-406 | each operation by what a caller sees of it: which nodes come first, stay, move or leave, in which order, and that every other list is the same |
| ListHeap.Heap.Step | include/dllist.h:135-406 | one operation on the links of one list has on all lists the effect a caller sees: which node is first or last, which nodes are kept in which order, the same nodes in order after a sort with a consistent comparator, and all other lists as they were |
| ListHeap.Heap.Run | include/dllist.h:135-406 | after any run of operations over any number of heads all lists are well-formed disjoint rings with the contents the meaning says |
| ListHeap.Heap.IsInList | include/dllist.h:217-221 | a node that was zeroed at first is reported on a list exactly when it is an element of some list |
| Log2.IsPower2Meaning | include/log2.h:52-67 | true for 0 and for exactly the powers of two, at any width |
| Log2.FloorLog2 | include/log2.h:269-297 | the loop returns what the leading-zero form does, for every word and width |
| Log2.CeilLog2 | include/log2.h:303-347 | the loop returns what the leading-zero form does, for every word and width |
| Log2.FloorLog2Bounds | include/log2.h:84-115 | 2^r <= n < 2^(r+1) |
| Log2.CeilLog2Bounds | include/log2.h:120-153 | 2^(r-1) < n <= 2^r |
| Log2.SmearAgreesWithClz | include/log2.h:181-262 | k shift-or steps on a word of 2^k bits round up like the leading-zero form, for every input with the wrap-around at 0 and at the top |
| Log2.RoundUpToNextPowerOfTwo | include/log2.h:231-244 | the 32-bit fallback equals the leading-zero form |
| Log2.RoundUpToNextPowerOfTwo64 | include/log2.h:250-264 | the 64-bit fallback equals the leading-zero form |
| Log2.RoundUpIsPow2OfCeil | include/log2.h:120-262 | rounding up is 2 to the ceiling of the logarithm, up to the top power of two |
| Log2.TablesAreMasks | include/log2.h:353-387 | entry j of the mask tables has exactly the bits whose index has bit j |
| Log2.ExactLog2 | include/log2.h:353-366 | the 32-bit table fallback returns e on 2^e |
| Log2.ExactLog2Of64 | include/log2.h:372-387 | the 64-bit table fallback returns e on 2^e |
| Log2.ExactLog2Agrees | include/log2.h:160-176 | the intrinsic forms of exact and floor logarithm return e on 2^e too |
| Log2.NumMipLevelsCountsChain | include/log2.h:391-415 | the number of levels is the length of the chain that halves each dimension down to one texel |
| TlPacket.PvrAlignIsLeastMultiple | include/img_defs.h:210 | the macro gives the least multiple of any power of two not below x, or 0 when the 32-bit sum wraps |
| TlPacket.AlignIsMacro | include/pvrsrv_tlcommon.h:63-65 | the stream's rounding is that macro at 8 |
| TlPacket.FieldsAreMasks | include/pvrsrv_tlcommon.h:171-216 | the getters and the flag setter, in masks and shifts, read and set disjoint fields |
| TlPacket.HdrWordFields | include/pvrsrv_tlcommon.h:171-206 | length and type come back from the header word, with no drop flag |
| TlPacket.HdrWordLen | include/pvrsrv_tlcommon.h:174-180 | of a length too large for its field the low half is read back |
| TlPacket.SetDroppedFields | include/pvrsrv_tlcommon.h:208-216 | setting the flag keeps length and type of any word |
| PacketChain.WalkReadsChain | include/pvrsrv_tlcommon.h:176-202 | a reader that steps with the next-packet macro over packets laid end to end gets exactly those packets |
| PacketChain.WalkInvertsLayout | include/pvrsrv_tlcommon.h:63-202 | every list of packets up to the largest size is laid out and walked back to itself |
| PacketChain.StepsAreAligned | include/pvrsrv_tlcommon.h:191-202 | each step moves on by at least a header and stays on 8 bytes |
| PacketChain.WalkOfDisguise | include/pvrsrv_tlcommon.h:136-216 | padding put in anywhere and drop flags changed anywhere do not change the packets that mean something |
| PacketChain.MeaningOfPlain | include/pvrsrv_tlcommon.h:136-216 | a list without padding and flags means itself |
| PacketChain.MeaningKeeps | include/pvrsrv_tlcommon.h:136-216 | the meaning of a list has all of its packets but padding, without their flags, and no others |
| StreamRing.TakesMaxWhenEmptyIff | services/server/common/tlstream.c:62-72 | the largest packet fits the empty stream at every offset if and only if the size is 120, 136 or at least 152 |
| StreamRing.MaxPacketIsTwoFifths | services/server/common/tlstream.c:62-72 | the largest packet is two fifths of the buffer or 65520 bytes, rounded up to 8 |
| StreamRing.SmallStreamFails | services/server/common/tlstream.c:62-72 | at 128 bytes it does not |
| StreamRing.FitsWhere | services/server/common/tlstream.c:110-132 | a packet fits exactly when, put at the write offset or, if it would run past the end, at the start, it ends 16 bytes before the read offset |
| StreamRing.EverySuggestionFits | services/server/common/tlstream.c:74-108 | any request up to the suggested size is one that a reservation takes |
| StreamRing.SuggestionFillsPiece | services/server/common/tlstream.c:74-108 | the size suggested is the largest that one piece of free cells takes, and 0 exactly when none takes more than the least size asked for |
| StreamRing.NothingLargerFits | services/server/common/tlstream.c:74-108 | no larger size fits that piece; with the read offset ahead no larger size fits at all |
| StreamRing.LargestIsSuggestedIff | services/server/common/tlstream.c:74-108 | with the write offset ahead, and the piece up to the end large enough, a larger packet would fit than is suggested, if and only if the read offset is not at the start and the largest packet was not suggested |
| StreamRing.RoomIsMade | services/server/common/tlstream.c:815-842 | the packets dropped leave what is needed and about a twentieth of the buffer, and one fewer would leave less than one of the two |
| StreamRing.LiveAppend | services/server/common/tlstream.c:1001-1046 | a packet at the write offset becomes the newest one when the offset passes it, and the full buffer never looks empty |
| StreamRing.LiveRelease | services/server/common/tlstream.c:1498-1545 | moving the read offset over packets removes those at the front; where packets remain a header stands |
| StreamRing.LiveMark | services/server/common/tlstream.c:844 | flagging the header at the read offset changes the oldest packet only, or none |
| StreamRing.PrefixIsFirst | services/server/common/tlstream.c:1479-1493 | packets at the front that end before the buffer does lie in the first contiguous piece |
| StreamRing.NewestCell | services/server/common/tlstream.c:853-884 | the cell before the write offset is the newest packet's header, or the last cell of its data |
| TlStream.Stream.constructor | services/server/common/tlstream.c:222-330 | an empty stream of any size from 16 bytes on that satisfies the invariant, with its largest packet in numbers |
| TlStream.Stream.Reserve | services/server/common/tlstream.c:666-961 | the outcome and the whole effect by mode: nothing changed when refused, padding exactly when the end is too near, just enough of the oldest packets dropped and the next one flagged, or the write noted as failed with all the piece of free cells takes suggested; where the offsets are and whether packets may have been dropped |
| TlStream.Stream.PassOldest | services/server/common/tlstream.c:815-842 | the packets passed are the oldest ones, and the fewest that make the room asked for; none if a single cell was free |
| TlStream.Stream.NoteWriteFailed | services/server/common/tlstream.c:853-884 | a failed write is noted exactly when the word before the write offset is of another type, so once in a row |
| TlStream.Stream.ReserveDroppingOldest | services/server/common/tlstream.c:800-961 | fails with a stream error exactly when one cell was free, and otherwise drops just enough for the request and about a twentieth of the buffer, and claims the space |
| TlStream.FlaggedIffSurvives | services/server/common/tlstream.c:840-846 | with dropped packets announced by a flag, the queue holds a flag if and only if some packet was left |
| TlStream.Stream.Commit | services/server/common/tlstream.c:1001-1136 | what was reserved and committed in full becomes the newest packet; a reader can step over it to the write offset if and only if the whole claim was committed |
| TlStream.Stream.HoldsMatchesIffWithinLimit | services/server/common/tlstream.c:731-747 | a claim can be committed as the packet its header announces exactly when the size is within the limit, which sizes that wrap are not |
| TlStream.Stream.Write | services/server/common/tlstream.c:1138-1167 | succeeds exactly when there is room or the mode can make some; then just this packet was added to the data, after the padding it needs and just enough drops; otherwise no data was added or lost; where the offsets are then |
| TlStream.ReserveKeepsData | services/server/common/tlstream.c:780-961 | whatever a reservation drops, flags, pads or notes, all data that ever went through the stream stays the same list |
| TlStream.Stream.AcquireReadPos | services/server/common/tlstream.c:1387-1467 | the piece handed to the reader is walked to the oldest packets, and is empty exactly when the stream is |
| TlStream.Stream.AdvanceReadPos | services/server/common/tlstream.c:1498-1572 | where the read offset goes for any length in whole cells; only a release that differs from the piece acquired is checked, by the header at its end; releasing packets of the first piece removes just these |
| TlStream.Stream.Reconfigure | services/server/common/tlstream.c:452-507 | the mode changes between packets, and the read-pending flag stays as it is |
| Traces.RunAddsWhatWasGranted | services/server/common/tlstream.c:666-1136 | a list to which each step adds just what it is granted holds after any run just what was granted, in order |
| TlTrace.WritesWhatWasGranted | services/server/common/tlstream.c:666-1136 | in any trace the packets of the reservations granted, and no others, are written, in order |
| TlTrace.DropsOnlyInDropOldest | services/server/common/tlstream.c:800-846 | a trace that is never in `DROP_OLDEST` drops nothing |
| TlTrace.StepIsDetermined | services/server/common/tlstream.c:1001-1572 | the state fixes what every call but a reservation does |
| TlSession.ReserveStep | services/server/common/tlstream.c:666-961 | a reservation is exactly one step of the trace: granted with its padding, granted after the fewest drops, noted, waiting or refused |
| TlSession.Session.Reserve | services/server/common/tlstream.c:666-961 | it is that step, granted exactly when the request is within the limit and there is room or some may be made; a piece that is held stays in place, and the writer's data is put where it will be committed |
| TlSession.Session.NotEnabledIff | services/server/common/tlstream.c:666-961 | the only steps that a run stops at |
| TlSession.Session.Commit | services/server/common/tlstream.c:1001-1136 | just the packet reserved is added to what was written and to the queue, none is pending then, and a piece that is held stays in place |
| TlSession.Session.Acquire | services/server/common/tlserver.c:516-652 | a piece is held exactly when the stream has packets; it is all from the read offset to the write offset or the end, and in `DROP_OLDEST` the stream knows of it |
| TlSession.Session.ReadPackets | services/shared/common/tlclient.c:387-395 | stepping from header to header through the memory of the piece gives its packets |
| TlSession.Session.Release | services/shared/common/tlclient.c:398-459 | releasing the packets read is always accepted, also when others acted in between; just these leave the stream, and the read offset follows them |
| TlSession.Session.Run | services/server/common/tlstream.c:452-1572 | any steps of writer, reader and mode changes run as a trace of the steps between values, which fixes the outcome of each, up to a request that the model leaves out or a switch to `DROP_OLDEST` under a reader the stream does not know of; the packets of the reservations granted are written in order; nothing received is lost, nothing dropped without `DROP_OLDEST`, and two cells stay free without `DROP_NEWER` |
| TlSession.Session.WhatWasReceived | services/server/common/tlstream.c:452-1572 | what left the stream is what the reader received and what was dropped, merged in order; received data is a subsequence of the data written, and all that is no longer queued when nothing was dropped |
| TlSession.Session.Drain | services/server/common/tlstream.c:1387-1572 | a reader that goes on reading ends with an empty stream, and has then received all data written if nothing was dropped |
| TlSession.Session.SwitchUnderReader | services/server/common/tlstream.c:1508-1513 | after a switch to `DROP_OLDEST` under a reader a writer takes away the piece held, if and only if read-pending was not set and more than one cell was free |
| TlCases.FlagIsLost | services/server/common/tlstream.c:840-846 | the only packet is dropped for another one and nothing in the queue tells of it |
| TlCases.OneFreeCell | services/server/common/tlstream.c:800-846 | a stream that ends with one free cell and then takes no packet, dropping none but flagging the oldest |
| TlCases.ShortCommit | services/server/common/tlstream.c:1001-1136 | eight of sixteen bytes are committed, and a reader steps past the write offset |
| TlCases.HugeRequest | services/server/common/tlstream.c:731-747 | a request of 2^32 - 1 bytes is granted 8, and a reader steps past the write offset |
| TlCases.SwitchLosesPacket | services/server/common/htbserver.c:690-701 | the mode is switched while a piece is held, and a packet leaves that is neither among those received nor among those dropped |
| TlCases.StaleReader | services/server/common/tlstream.c:1508-1513 | a reader holds no piece and has received what it released, and yet read-pending is set and a writer without room waits |
| HwPerf.SizeIsExactIff | include/rgx_hwperf_common.h:262-285 | sizes are multiples of 8, read back whole, and are the true rounded size exactly up to 65504 bytes of payload, far above the largest payload |
| HwPerf.TypeIdRoundTrip | include/rgx_hwperf_common.h:293-370 | every getter returns what fits of the value put in, so a type id comes back if and only if all its fields are in range |
| HwPerf.ReadEventsInvertsLayout | include/rgx_hwperf_common.h:279-377 | every list of packets within the payload limit is walked back with all its fields |
| HwPerf.NestedFormatsReadBack | include/rgx_hwperf_common.h:279-377 | however a list is cut into stream packets, walking the stream and then each packet gives the list |
| HwPerfCopy.GetPackets | services/server/devices/rgxhwperf_common.c:95-113 | the longest run of whole packets that stays strictly below the limit |
| HwPerfCopy.SubmitSome | services/server/devices/rgxhwperf_common.c:229-262 | what fits the reported room is never refused |
| HwPerfCopy.NoteMakesNoRoom | services/server/common/tlstream.c:853-896 | a size that was refused does not fit once the refusal has been noted |
| HwPerfCopy.Submit | services/server/devices/rgxhwperf_common.c:209-266 | all packets in one stream packet exactly when they fit, or else the longest run below the room reported |
| HwPerfCopy.TakesRunInNumbers | services/server/devices/rgxhwperf_common.c:209-266 | a run is taken whole exactly when it fits 16 bytes before the read offset, else as far as it stays below the room |
| HwPerfCopy.RoomFillsPiece | services/server/common/tlstream.c:74-108 | the room reported after a refusal is what one piece of free cells behind the note takes |
| HwPerfCopy.CopyL1ToL2 | services/server/devices/rgxhwperf_common.c:129-277 | what is offered, and how much of it is copied, by the offsets of the stream; that the stream gained those packets and no others, and when copying is to be suspended |
| HwPerfCopy.TakesInNumbers | services/server/devices/rgxhwperf_common.c:129-277 | what a stream takes of any list, by its offsets |
| HwPerfCopy.TakesSomeIff | services/server/devices/rgxhwperf_common.c:129-277 | some packets are copied exactly when what is offered fits or the first packet is below the room that is left |
| HwPerfCopy.NeverTakenIff | services/server/devices/rgxhwperf_common.c:185-204 | the lists that no stream with packets of this size ever takes from, and that never suspend copying |
| HwPerfCopy.HeldAfter | services/server/devices/rgxhwperf_common.c:280-286 | moving the read index over copied packets, past the wrap as well, leaves the others held |
| HwPerfCopy.FwBuffer.StoreRun | services/server/devices/rgxhwperf_common.c:349-383 | the index moves over exactly what was copied, and the wrap count stays |
| HwPerfCopy.FwBuffer.DataStore | services/server/devices/rgxhwperf_common.c:292-441 | the packets copied are the first of those in the buffer, in order and across the wrap, and the others stay; exactly how many of both runs are copied, and when copying is suspended; the wrap count is reset exactly when the read index has wrapped |
| HwPerfCopy.StoringConserves | services/server/devices/rgxhwperf_common.c:292-441 | delivered and pending packets together stay the same list |
| Cccb.SpaceIsFree | services/server/devices/rgxccb.c:87-88 | with 32-bit wrap-around the macro counts the free bytes less one |
| Cccb.OffsetAdvances | services/server/devices/rgxccb.c:90-91 | the offset update wraps at the end of the buffer only |
| Cccb.ClientCcb.constructor | services/server/devices/rgxccb.c:788-812 | an empty ring that satisfies the invariant |
| Cccb.ClientCcb.CheckSpace | services/server/devices/rgxccb.c:970-1028 | says by the two offsets which sizes are too big and which fit now, with the padding they need |
| Cccb.ClientCcb.Acquire | services/server/devices/rgxccb.c:1042-1337 | the exact outcome by the two offsets: in place, wrapped with padding, doubled, too big or retry; it never comes to grow twice |
| Cccb.ClientCcb.GrowRing | services/server/devices/rgxccb.c:1166-1246 | doubling keeps all live commands and all that the firmware knows, and the command then fits without wrapping |
| Cccb.ClientCcb.WritePaddingHeader | services/server/devices/rgxccb.c:1143-1147 | the padding header disturbs no live command |
| Cccb.ClientCcb.Release | services/server/devices/rgxccb.c:1348-1555 | padding, if any, and then the commands become live in order, and the write offset follows them |
| Cccb.ReleaseOnSixteen | include/rogue/rgx_fwif_shared.h:200-201 | a release keeps the write offsets on 16 bytes exactly when its size is a multiple of 16, with or without padding |
| Cccb.KickOffSixteen | services/server/devices/rgxkicksync.c:596-647 | a kick-sync that waits for one sync object on a new buffer takes 40 bytes, and the firmware is sent the offset 40 |
| Cccb.SizeIsAlignedIff | services/server/devices/rgxccb.c:1597-1686 | the size acquired for a submission is 16 bytes for each command and 8 for each sync object, 8-byte word of a command and additional command; it is a multiple of 16 exactly when these last are an even number together |
| Cccb.ClientCcb.SendKick | services/server/devices/rgxccb.c:1574-1582 | a kick carries write offset and wrap mask, and leads to all commands |
| Cccb.ClientCcb.TakeKick | include/rogue/rgx_fwif_km.h:1114-1119 | the firmware goes on to what the kick shows, also when the ring has grown since |
| Cccb.ClientCcb.AdvanceDep | include/rogue/rgx_fwif_shared.h:185-211 | the next command becomes runnable, and the offset stands at the one after it |
| Cccb.ClientCcb.Retire | include/rogue/rgx_fwif_shared.h:185-211 | the oldest command, as it was written, is retired, and only if it was runnable |
| Cccb.ClientCcb.OffsetsInOrder | include/rogue/rgx_fwif_shared.h:185-211 | read, dependency and write offsets stay in circular order, and read meets write exactly when nothing is live |
| Cccb.ClientCcb.AcquireAndFill | services/server/devices/rgxccb.c:1833-2172 | exactly when space is acquired and when the ring is doubled for it, by the two offsets; the commands then lie there and are not yet live |
| Cccb.ClientCcb.ReleaseReady | services/server/devices/rgxccb.c:2174-2243 | the commands acquired become live, and the offset moves by their total |
| Cccb.ClientCcb.KernelStep | include/rogue/rgx_fwif_shared.h:185-211 | what each kick and firmware step does; commands in acquired space, and its padding, stay there whatever they do before the release |
| CccbTrace.SubmitsWhatWasGranted | services/server/devices/rgxccb.c:1833-2243 | in any trace the commands of the steps that were granted space, and no others, are submitted, in order |
| CccbTrace.AcceptedInNumbers | services/server/devices/rgxccb.c:1042-1337 | when a command is taken in place, wrapped or grown for, by the two offsets |
| CccbTrace.StepIsDetermined | services/server/devices/rgxccb.c:1833-2243 | the state fixes what a step does, but for the contents of padding |
| Cccb.ClientCcb.NoneIsLost | include/rogue/rgx_fwif_shared.h:185-211 | the jobs retired, followed by those live, are all those submitted, in their order |
| Cccb.ClientCcb.Drain | include/rogue/rgx_fwif_shared.h:185-211 | one more kick and enough firmware steps empty the ring, and all that was put into it is retired |
| Cccb.ClientCcb.Run | include/rogue/rgx_fwif_shared.h:185-211 | any interleaving of acquiring, releasing, kicks and firmware steps runs as a trace of the steps between values, which fixes the outcome of each; the commands of the steps granted space are submitted in order, and their jobs retire in this order, none lost or repeated; all write offsets were on 16 bytes if and only if all submissions were multiples of 16 |
| CccbRing.MaskSteps | services/server/devices/rgxccb.c:2491-2507 | with its own or an older wrap mask a reader steps from command to command through what it was shown |
| CccbRing.MaskAfterGrow | services/server/devices/rgxccb.c:2491-2496 | masks known before growing still lead through what was there |
| CccbRing.AtDistinct | include/rogue/rgx_fwif_shared.h:185-211 | different commands start at different offsets, so comparing offsets tells progress |
| CccbRing.OldestIsRead | include/rogue/rgx_fwif_km.h:1807-1824 | the command read at the read offset is the oldest one |
| CccbRing.JobsAreTheRest | include/rogue/rgx_fwif_shared.h:185-211 | jobs are the commands that are not padding |
| TimeCorr.AccurateIffProductFits | include/rogue/rgx_fwif_km.h:2229-2259 | the conversion is never above the time seen with the rounded clock, and short of it by less than a nanosecond and a 2^20-th of the ticks, if and only if the 64-bit product does not wrap |
| TimeCorr.ShortByRounding | include/rogue/rgx_fwif_km.h:2229-2259 | the same bounds against the true time, with the part that rounding the clock takes off or adds |
| TimeCorr.NeverAboveIff | include/rogue/rgx_fwif_km.h:2229-2259 | no conversion goes above the true time for exactly the clocks whose product with the factor is at most the scaled tick |
| TimeCorr.RoundedUpIsNeverAbove | services/server/devices/rgxtimecorr.h:69-77 | clocks that are not rounded down are such clocks |
| TimeCorr.RoundedDownGoesAbove | services/server/devices/rgxtimecorr.h:69-77 | at 600000400 Hz 2343750 ticks are converted to more than the true time |
| TimeCorr.SafeBelow2To44Iff | include/rogue/rgx_fwif_km.h:2246-2253 | no true time below 2^44 ns wraps for exactly the clocks whose first wrap comes that late |
| TimeCorr.NeverAboveIsSafe | include/rogue/rgx_fwif_km.h:2246-2253 | these include all clocks that are never converted to too much |
| TimeCorr.WrappedAtFiveHoursIff | include/rogue/rgx_fwif_km.h:2246-2253 | every true time from five hours on has wrapped for exactly the clocks whose last product that fits comes before |
| TimeCorr.WrappedFrom22Khz | include/rogue/rgx_fwif_km.h:2246-2253 | these include all clocks from 22 kHz on |
| TimeCorr.SlowClocksFail | include/rogue/rgx_fwif_km.h:2246-2253 | 1499 Hz wraps before 2^44 ns and 1500 Hz after five hours |
| TimeCorr.DeltaIsMonotone | include/rogue/rgx_fwif_km.h:2256-2259 | more ticks are never converted to less time while the product fits |
| TimeCorr.FactorBounds | services/server/devices/rgxtimecorr.h:104-118 | the factor is the scaled tick divided by the clock in kHz, rounded down |
| GpuUtil.WordFields | include/rogue/rgx_fwif_km.h:2267-2283 | time, cut to a multiple of 4, and state come back from a word |
| GpuUtil.CreditsCoverTime | include/rogue/rgx_fwif_km.h:2279-2283 | the states' credits add up to at least the time from first to last word, and to exactly that if and only if times never decrease |
| GpuUtil.UtilBlock.Update | services/server/devices/rogue/rgxpower.c:114-123 | the time since the last word, if it has not gone back, is added to the counter of the state in that word, modulo 2^64, and to no other |
| GpuUtil.UtilBlock.UpdateStats | services/server/devices/rogue/rgxpower.c:97-123 | the host's update keeps the state |
| GpuUtil.UtilBlock.CountersCoverTime | include/rogue/rgx_fwif_km.h:2311-2314 | until a counter wraps the counters cover the elapsed time |
| Strlcpy.CompatStrlcpy | config_kernel_sunxi_a133.h:253-265 | returns the source's length for every size; writes the longest prefix that fits, a terminator and nothing else; the result is below the size exactly when the whole string arrived |
| Strlcpy.StrLenOf | config_kernel_sunxi_a133.h:255 | the place of the first terminator |
| LogLookup.IdToStringId | include/rgxfw_log_helper.h:61-76 | the first place that holds the id before the sentinel, or the sentinel |
| LogLookup.LookupInvertsTable | include/rgx_fwif_sf.h:928-945 | on ids encoded from distinct group and number pairs the lookup returns the row, and the getters recover group and parameter count |
| LogLookup.SfIdFields | include/rgx_fwif_sf.h:928-945 | id number, group and parameter count come back from an id, which is valid |
| LogLookup.CollidesIff | include/rgx_fwif_sf.h:910 | the one row in range that equals the sentinel |
| LogLookup.LastIsCreated | include/rgx_fwif_sf.h:910-929 | the sentinel is what the macro makes of the last row, whose number does not fit its field |
| LogLookup.IdOrder | include/rgx_fwif_sf.h:913-929 | ids are ordered by parameter count first |
| LogLookup.FirstRowsAreOutOfOrder | include/rgxfw_log_helper.h:58-60 | the first two rows of the main group are not in increasing order |

## Left out

- TlStream.Stream.constructor: stream sizes of 0 and 8 bytes, which have no room for the two cells kept free, and sizes from 2^31 bytes up, for which the room is not a signed word.
- TlStream.Stream.Reserve: requests for which a `DROP_OLDEST` stream of less than 152 bytes has no room even when empty; the source then looks for packets to drop beyond the live ones. Also waiting for the reader, the locks and the read try-lock; a reservation that would wait returns `WouldBlock`. The source takes a reservation that waited for a reader for one that overwrote, also when room has appeared meanwhile; the one tried again here does not.
- TlStream.Stream.ReserveDroppingOldest: the same small streams.
- TlStream.Stream.Write: request sizes above 2^32 - 8 bytes, for which data of that size is copied into 8 bytes; `TlCases.HugeRequest` says what becomes of such a reservation.
- TlStream.Stream.AdvanceReadPos: what the queue is after a length that ends inside a packet, where data may look like a header.
- TlSession.Session.Reserve: request sizes above 2^32 - 8 bytes, as for `TlStream.Stream.Write`.
- TlSession.Session.Run: a reader's limit on what it reads, and a reader that releases something else than packets it has stepped over.
- TlStream.Stream.Fill: the bytes of a packet's last cell beyond its length; data is copied in whole cells.
- Streams that never wrap, end-of-stream and open/close markers, the producer callback and the stream statistics.
- HwPerfCopy.FwBuffer.Valid: the firmware's writing into its buffer is not part of this model; the predicate states what its indices mean.
- Cccb.ClientCcb.TakeKick: the kernel command buffer between host and firmware is a queue of kicks in order.
- Cccb.ClientCcb.AdvanceDep: which fences are met; any command may become runnable at any time.
- Cccb.ClientCcb.Acquire: 32-bit kernels where the size check may wrap, and memory for growing that fails half-way.
- Of the command buffer: contents of fences and updates, PDUMP, the AGP read offsets and the utilisation statistics.
- GpuUtil.UtilBlock.Update: the counters per data master and OS, which take the same step, and the reader that retries while the firmware writes.
- TimeCorr.ConversionFactor: the array of correlation entries and the estimate of the clock speed.
- Dllist.Sort: the objects in which nodes are embedded; a node stands for its container, and the comparator reads no links.
- Kernel version shims, debug and logging macros, declarations without behaviour, and fixed bit-field packings elsewhere, which hold no state.
- The string text of the firmware's message table and the group names.
- Memory ordering, `volatile` and cache maintenance.
