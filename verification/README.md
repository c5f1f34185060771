# Verified models of the Solarflare driver's algorithms

This project models, in Dafny, the algorithms of the `sfxge` network driver that carry hard invariants, and
proves them for all inputs and all runs. Registers, firmware messages, DMA and memory allocation appear only
as free choices or parameters. `dfyconfig.toml` names the files.

| part | modules | what is proved |
|---|---|---|
| receive coalescing (LRO) | `RxStreams`, `RxFlows` (functions), `RxLro` (the table in place), `RxOrder`, `RxCases` | no packet is lost; when every TCP stream reaches the stack in order; which flags are lost |
| receive buffer pool | `RxPools` (abstract), `RxPool` (driver's lists and counters) | no packet is lost or in two places; what the loan count means |
| transmit deferred packet list | `DplQueue` (interleaving), `TxDpl` (linked packets) | a linearizable FIFO within its limits |
| blocking a full transmit queue | `TxUnblock` | no lost wakeup; the parked list is posted |
| transmit ring and slots | `TxRings` (abstract), `TxRing` (slots and 32-bit counters) | ownership of mappings, buffers and messages over whole runs |
| fragmentation and segmentation | `TxDescs`, `TxFragment`, `TxFragmenter`, `TxLso` | descriptors read through DMA memory are the message, or its TCP segments |
| completion events and doorbells | `Events` | event counters recover the true ring position |
| MAC filter table | `Filters`, `FilterRules`, `FilterTable` (one thread), `FilterThreads` (interleaving) | uniqueness, exact mark-and-sweep, chaining safety |
| NVRAM partition editor | `TlvFormat`, `TlvSplice`, `TlvCursor`, `TlvImage`, `NvramBuffer`, `NvramTlv`, `NvramSegments`, `NvramCases` | word edits are list edits; images validate; values read back |
| Toeplitz hash | `Toeplitz` | the byte table computes the bitwise hash |
| shared | `Words`, `Options`, `RingSlots`, `Chains`, `TxSizes` | wrapped words, ring slots, chains of owned things |

Code that updates state is modelled by classes over arrays and fields, each method proved against a function
of the old state; the properties over runs are proved about those functions. 32-bit and 16-bit counters wrap
as in C; ghost counters give the true values.

## What does not hold

These properties one might expect fail for the code as written; each line names the members that say when they
do hold.

- A reconfiguration of the MAC filters that returns 0 or ENOTSUP keeps the automatic filters exactly the tracked
  ones if and only if not both unicast filters were refused or no unicast filter was tracked before. When the
  firmware answers ENOTSUP to both, the driver returns that answer and loses track of the old ones
  (`FilterTable.Table.Reconfigure`; `FilterTable.LosesTrack` is a case).
- The documented maximum of the transmit get list holds exactly for a positive put limit (`DplQueue.DocumentedBound`).
- `srfpp_loaned` means what its comment says exactly when as many packets were preallocated as were lost in the
  run so far (`RxPools.LoanedIsDocumented`; `RxPools.PreallocatedIsNotLoaned` and `RxPools.LostStaysLoaned` are runs
  after which it does not).
- The four event bits recover a count of at most 15, while batches of 16 are configured (common/ef10_nic.c:940; `Events.CountRecovered`).
- `ef10_nvram_buffer_create` asks for 36 bytes but needs 44 (`NvramBuffer.Create`, `NvramBuffer.TenWordsRefused`).
- `ef10_nvram_buf_segment_size` compares the END it found first with the one behind the trailer, but leaves with
  return code 0 when they differ (common/ef10_nvram.c:1463-1467), so a trailer behind END is accepted
  (`NvramSegments.TrailerMayBeStray`, `NvramSegments.TrailerEndsSegment`).
- A segment that ends flush with its partition is never accepted (`NvramSegments.AcceptedIff`). So the loop over all
  segments always loses a last segment that does (`NvramSegments.FlushIsLost`), while it reports no error if there is one
  in front of it (`NvramCases.LosesFlush`); it loses nothing exactly when every segment is taken
  (`NvramSegments.PartitionWriteTlv`).
- That loop does not compare what it reads with the rest of its buffer, only what it writes to (common/ef10_nvram.c:1144-1171,
  1670-1677). Its reads stay inside the buffer if and only if each segment that it comes to fits behind the output so far
  (`NvramSegments.ReadsStayInside`); if not, it goes on, and the size check at the end returns ENOSPC after the fact
  (`NvramCases.Outgrows`).
- A search for an absent tag with no known end walks on past END (common/ef10_nvram.c:151). A write edits the segment
  itself if and only if the tag is in it or that walk does not meet it (`NvramTlv.WriteReachesIff`;
  `NvramTlv.StrayIsReached` is a case where it edits other words). `NvramTlv.ZeroTailIsWritable` and
  `NvramSegments.ClearIsStrayFree` give simple sufficient conditions.
- One flush of the deferred packet list need not empty both lists (sfxge_tx.c:1979-1980); `TxDpl.Dpl.Flush` says when.
- The second unblock level is unreachable (`TxUnblock.NoLostWakeup`).
- The tag of a flow entry is the hash plus one, "not zero" (sfxge_rx.c:1649), but it is zero for the hash 2^32-1. A packet
  with that hash makes an entry that was never claimed the current flow, and packets with the all-zero key behind it in the
  batch are taken for that entry's. All runs keep every flow in order if and only if no tuple has that hash or the all-zero
  one has it (`RxCases.OrderlyIff`; `RxCases.OvertakesHeld` is a run that does not); a single run does if no batch has such
  a packet in front of one with the all-zero key (`RxOrder.RunKeepsOrder`).
- Coalescing is to start with the flow last appended to, but never does, since the link read at sfxge_rx.c:1520 is
  the null end of the list; `RxLro.RxQueue.Complete` is about the code as it is.
- FIN does not stop merging, and a merged frame shows the flags of its last packet only, so a FIN or ACK of an earlier
  packet can be lost (`RxCases.LosesFin` is a run). It happens only to a packet whose flow goes on exactly where its payload
  ends (`RxOrder.LostIsFollowed`, `RxOrder.LostHasNext`): never to the FIN of a sender that keeps to TCP, whose next sequence
  number is one further (`RxOrder.NotFollowedIsKept`). `RxOrder.JoiningLosesIff` is the exact condition for one segment.
- A filter for an IPv4 address is to be exclusive unless the address is a multicast one, but the code looks at the lower
  half of its first byte (common/ef10_filter.c:464-468), which agrees if and only if the byte is 238 or has no 14 in either
  half (`Filters.ExclusiveHosts`; `Filters.ExclusiveIsMistaken` has an address of each kind).
- A restore of the filters that the firmware refuses leaves its row busy for good (common/ef10_filter.c:520-521;
  `FilterThreads.AbandonedStays`), and an exclusive filter there can no longer be added (`FilterThreads.AbandonedBlocksAdds`).

## Model

| member | source | states |
|---|---|---|
| `RxLro.Receive` | sfxge_rx.c:1503-1931 | A queue from its start over any run of batches, whatever arrives: every frame handed to the stack is one untouched packet or a mergeable chain, shows the acknowledgement, window and flags of its last packet and the length of all its payload; every packet goes out at most once, and after a final end of poll each exactly once. For every flow, and for all other packets together, the output is a prefix of the input in order (all of it after a final end of poll) if in no batch an all-zero key comes behind a tuple that hashes to 2^32-1 |
| `RxOrder.RunKeeps` | sfxge_rx.c:1503-1931 | In every run the packets put out and those still held are those received, each as often |
| `RxOrder.RunKeepsOrder` | sfxge_rx.c:1503-1931 | For every flow, what went out followed by what is held is what was received, in every run in which each batch is clear |
| `RxCases.OrderlyIff` | sfxge_rx.c:1630-1697 | All runs give every flow to the stack in order if and only if coalescing is off, or no tuple hashes to 2^32-1, or the all-zero tuple does |
| `RxCases.OvertakesHeld` | sfxge_rx.c:1630-1697 | Twenty-two packets, one of them with hash 2^32-1, for which a queue hands segment 20 of a flow to the stack in front of segment 19, with every such hash function |
| `RxFlows.RunIsSane` | sfxge_rx.c:1322-1874 | In every run each table entry is in order, held chains are on the list of occupied flows, frames are good, and an end of poll leaves no entry with data |
| `RxLro.RxQueue.Complete` | sfxge_rx.c:1848-1921 | One batch on the table in place is the function that the results over runs are about: coalescing in order of arrival, then at an end of poll completion of every occupied flow |
| `RxLro.RxQueue.FlowAdd` | sfxge_rx.c:1361-1500 | Merges a segment exactly when it is in time, in sequence, plain and the flow has passed slow start; otherwise the flow is flushed and the packet refused; says the new sequence number, count, held chain, output chain and list of occupied flows in full |
| `RxLro.RxQueue.Lookup` | sfxge_rx.c:1630-1697 | An entry is taken over exactly when its tag is another, it is unused or stale, and it holds no data; with the same tag only the key decides |
| `RxLro.RxQueue.FlowComplete` | sfxge_rx.c:1322-1359 | Held data becomes one frame with the length kept for it and the acknowledgement, window and flags of the last packet held; the entry holds nothing afterwards |
| `RxLro.RxQueue.Join` | sfxge_rx.c:1420-1477 | The held chain is completed first when the packet would exceed the length limit of the flow; the length kept is that of the chain and stays below 2^16 |
| `RxLro.RxQueue.Flush` | sfxge_rx.c:1856-1874 | Every flow on the list of occupied flows is completed, and no other flow held anything |
| `RxOrder.MoveKeepsOrder` | sfxge_rx.c:1322-1500 | Emitting what an entry holds, and merging a further packet of its flow, repeats, loses and reorders nothing of any stream |
| `RxOrder.PassKeepsOrder` | sfxge_rx.c:1503-1705 | A packet that is not merged overtakes nothing of its own stream |
| `RxOrder.OneKeepsOrder` | sfxge_rx.c:1503-1705 | One packet keeps every stream in order unless an entry that was never claimed is taken for its flow |
| `RxFlows.ExtendMergeable` | sfxge_rx.c:1361-1500 | One more in-sequence segment keeps a chain fit to stand for one large segment, and its length is the sum |
| `RxOrder.HeaderShown` | sfxge_rx.c:1322-1359 | A good frame shows acknowledgement, window and flags of its last packet, and as IP length that of its first packet with the payload of all of them |
| `RxOrder.OutputIsMerged` | sfxge_rx.c:1361-1500 | In every run, each packet of a merged frame is an unfragmented TCP segment of one flow with data, a good checksum, no urgent data and none of URG, SYN and RST; it starts where the one in front of it ends, which ends no push if pushes end merging |
| `RxFlows.SlowStart` | sfxge_rx.c:1384-1418 | Behind a gap or a silence longer than the timeout, segment k that follows in sequence is merged exactly when it is plain and k is at least 19, or 19 less half the count of the flow before a gap, but never less than 9 |
| `RxFlows.LimitDoubles` | sfxge_rx.c:1420-1440 | The length limit of a flow that leaves slow start is 4096, and doubles with each segment up to 65536 |
| `RxFlows.AddedSegments` | sfxge_rx.c:1361-1500 | What adding a segment emits and leaves held is what was held, followed by the segment if it was merged |
| `RxStreams.MergedRange` | sfxge_rx.c:1322-1359 | A merged chain covers one contiguous range of sequence numbers modulo 2^32, and its length field counts exactly the first headers and all payload bytes |
| `RxOrder.FlagsShown` | sfxge_rx.c:1322-1359 | A frame shows the flags of its last packet; so no URG, SYN or RST of an earlier packet is lost, and a PUSH only if merging goes on across pushes |
| `RxOrder.LostHasNext` | sfxge_rx.c:1322-1500 | In any run, a packet whose flag a frame of the output loses has a packet of its flow among those received that starts at the sequence number where its payload ends |
| `RxOrder.LostIsFollowed` | sfxge_rx.c:1322-1500 | In a run that keeps the order it is the next packet of that flow to arrive |
| `RxOrder.NotFollowedIsKept` | sfxge_rx.c:1322-1500 | So no frame loses a flag that is never followed like that: a FIN, say, behind which a sender goes on one number further |
| `RxOrder.JoiningLosesIff` | sfxge_rx.c:1361-1500 | Adding a segment makes a held chain one that loses a flag if and only if a held packet has it, the segment lacks it, and the segment is in time, in sequence, plain, past slow start and short enough |
| `RxCases.LosesFin` | sfxge_rx.c:1322-1500 | Twenty-one segments of one flow, from a new queue, whose output has a frame that loses a FIN and an ACK, in either mode of coalescing |
| `RxStreams.SameStreamsSamePackets` | sfxge_rx.c:1503-1705 | Equal streams for every flow mean the same packets, each as often |
| `DplQueue.StepIsQueueOperation` | sfxge_tx.c:1961-2254 | Every atomic step of senders and lock holder is one operation of a FIFO queue: an accepted add enqueues at the back, a departure dequeues the front, swaps and reversals change nothing; the limits are kept |
| `DplQueue.RunsAreFifo` | sfxge_tx.c:1961-2254 | In every interleaving the packets that left, followed by the queue, are the accepted packets in the order in which their adds took effect |
| `DplQueue.DepartureOrder` | sfxge_tx.c:1961-2254 | Departures are a prefix of the accepted packets; once the lists are empty they are all of them; put and get list stay within their limits |
| `DplQueue.NoPutLimitBreaksBound` | sfxge_tx.c:124-134 | A concrete run that exceeds the documented maximum of the get list when the put limit is zero |
| `DplQueue.DocumentedBound` | sfxge_tx.c:124-134 | The documented maximum of the get list holds in every run if and only if the put limit is positive |
| `TxDpl.Dpl.Push` | sfxge_tx.c:2054-2079 | The unlocked add on linked packets is the abstract push; it is refused exactly at the put limit and then leaves the packet as it was |
| `TxDpl.Dpl.ReverseInPlace` | sfxge_tx.c:1990-2005 | The in-place relinking loop reverses the chain |
| `TxDpl.Dpl.Swizzle` | sfxge_tx.c:1961-2016 | On linked packets with a tail pointer the swizzle is the abstract one: the put list, reversed, behind the get list, unless the get list is at its limit |
| `TxDpl.Dpl.AddLocked` | sfxge_tx.c:2037-2052 | The locked add is a swizzle followed by an append, or refused exactly at the get limit |
| `TxDpl.Dpl.Drain` | sfxge_tx.c:2086-2234 | A prefix of the get list leaves, unlinked and in order; the put list is untouched |
| `TxDpl.Dpl.Flush` | sfxge_tx.c:2256-2303 | The get list is emptied; the put list is taken along exactly when the get list was below its limit; nothing is lost |
| `TxUnblock.NoLostWakeup` | sfxge_tx.c:2315-2399 | In every interleaving of sender and event thread: a queue at rest blocked with everything completed still has the event thread's check ahead of it; after the end of the poll it is not blocked; the second unblock level is never reached |
| `TxUnblock.StepKeepsInv` | sfxge_tx.c:873-987 | Every step of posting, completing, unblocking and of the two event callbacks keeps the protocol invariant |
| `TxUnblock.EventThreadUnblocks` | sfxge_tx.c:2315-2343 | From any stranded queue the event thread reaches its check, resets the unblock level and posts the parked list, without a step of a sender other than letting go of the lock |
| `TxUnblock.RecoveryStep` | sfxge_tx.c:2315-2399 | Each step of the event thread alone is enabled and comes nearer to posting the parked list |
| `TxUnblock.SettledMeaning` | sfxge_tx.c:873-987 | What a round from the label again comes to in the protocol when the event thread does nothing: posted, reaped to go again, or blocked at the first level, in exactly the stated cases |
| `TxRings.StepKeeps` | sfxge_tx.c:758-938 | Every step keeps the ring in order (ordered counters, at most the limit outstanding, slots empty outside the live ones, mappings bound exactly in live slots, everything owned once) and accounts for every mapping, buffer and message |
| `TxRings.RunKeeps` | sfxge_tx.c:758-938 | In every run the ring stays in order and every message handed over is freed once or held in one slot |
| `TxRings.PostMoves` | sfxge_tx.c:908-932 | Moving the completion information to the last descriptor's slot never overwrites a slot in use and changes no other slot |
| `TxRings.DrainedIsEmpty` | sfxge_tx.c:2492-2560 | With nothing outstanding and no packet parked, every mapping and buffer is back in its pool, unbound, and every message is freed |
| `TxRings.DrainedRestarts` | sfxge_tx.c:2492-2560 | A drained queue is in order again from any start index |
| `TxRings.StartIsOk` | sfxge_tx.c:1088-1243 | A queue as it is started is in order |
| `TxRing.TxQueue.Reap` | sfxge_tx.c:758-811 | The reaping loop on slots, pools and 32-bit counters is the abstract reaping of all completed descriptors |
| `TxRing.TxQueue.Abort` | sfxge_tx.c:813-870 | Aborting returns what the parked packet holds to the pools, unbinds what was bound and frees the message |
| `TxRing.TxQueue.Complete` | sfxge_tx.c:2345-2385 | The completion loop on 32-bit counters unbinds and frees exactly the slots up to the pending one |
| `TxRing.TxQueue.EventTx` | sfxge_ev.c:447-451 | The reported index and the wrapped pending counter give the true number of completed descriptors |
| `TxRing.TxQueue.PostList` | sfxge_tx.c:898-935 | The descriptors go into the ring behind those added and no other slot of it changes; the completion information moves to the slot of the last of them, and the counters advance, as in the abstract post |
| `TxRing.TxQueue.NoRoom` | sfxge_tx.c:940-986 | Without room the queue reaps and tries again, or blocks at the first level with nothing changed, in exactly the stated cases |
| `TxRing.TxQueue.PostRound` | sfxge_tx.c:873-987 | One round from the label again on slots, ring and 32-bit counters: posted, blocked or repeated in exactly the stated cases, which are those of the protocol; the ring stays in order |
| `TxRing.TxQueue.Stop` | sfxge_tx.c:2492-2560 | After a stop all counters are zero, the queue is in order, and every mapping, buffer and message is back, each once |
| `TxDescs.Bind` | sfxge_tx.c:683-756 | The page array and first offset built from the DMA cookies give the bus address of every byte of the block |
| `TxDescs.EopOnLastOnly` | common/ef10_tx.c:410-466 | One complete frame with nothing behind it has end-of-packet on its last descriptor only |
| `TxFragment.CopyMeaning` | sfxge_tx.c:1359-1400 | Bytes copied to a buffer join the frame at hand; no earlier descriptor reads anything else afterwards |
| `TxFragment.FlushMeaning` | sfxge_tx.c:1321-1357 | Listing the buffer adds no bytes and ends the frame exactly when asked |
| `TxFragment.ListMeaning` | sfxge_tx.c:1245-1319 | A listed piece of a mapping appends exactly the bytes that memory holds there |
| `TxFragment.MapPiece` | sfxge_tx.c:1245-1319 | Every piece of a mapped block lies in one 4K page, and the hardware reads the block's bytes there |
| `TxFragmenter.Queue.MappingAdd` | sfxge_tx.c:1245-1319 | The descriptors made from a mapping send exactly the bytes between the old and the new offset, ending the frame with the last byte; it succeeds if and only if there is a descriptor for every 4K page that they touch |
| `TxFragmenter.Queue.BufferAdd` | sfxge_tx.c:1321-1357 | What waits in the buffer goes on the list, or the list is full and nothing changes |
| `TxFragmenter.Queue.MsgbCopy` | sfxge_tx.c:1359-1400 | Copies as much as block, buffer and limit allow, and reports end-of-packet exactly at the end |
| `TxFragmenter.Queue.CopyBlock` | sfxge_tx.c:1879-1925 | The copy branch sends exactly the bytes it advances over, and fails exactly for want of a buffer or a descriptor |
| `TxFragmenter.Queue.MapBlock` | sfxge_tx.c:1837-1877 | The mapping branch puts waiting bytes first, then sends exactly the bytes it advances over; it fails exactly for want of descriptors |
| `TxFragmenter.Queue.PacketFragment` | sfxge_tx.c:1780-1955 | On success the descriptors, read in order through DMA memory, are exactly the message as one frame, end-of-packet on the last descriptor only, every descriptor within one 4K page, whatever mix of mapping and copying; the message is kept exactly when something was mapped, never when copying. ENOSPC only with a full list, ENOMEM only with an empty pool, and no other failure; a message to be copied is sent if and only if its 1K pieces fit the pool and the list, and any message if there is room for those pieces and the pages of its blocks |
| `TxFragmenter.Queue.PayloadFragment` | sfxge_tx.c:1402-1564 | Exactly size bytes of the message from the given position end the frame at hand, and the position advances by size; fails only with a full list or an empty pool, and not when copying with room for the 1K pieces |
| `TxFragmenter.Queue.PutHeader` | sfxge_tx.c:1685-1714 | The headers join the next frame; a new buffer is taken exactly when there is none for headers yet or they do not fit in it, ENOMEM says exactly that there was none to take, ENOSPC that the list is full |
| `TxLso.LsoFragment` | sfxge_tx.c:1566-1778 | Refused with EINVAL if and only if the stated condition holds on the bytes of the headers (lengths, fragment offset and MF, URG, SYN, urgent pointer) or size/mss is 504 or more; otherwise it fails only with a full list or an empty pool, and not when copying with enough of both. On success the frames are exactly the ceil(size/mss) frames of the packet; on any failure every header byte and b_rptr are as before |
| `TxLso.FrameMeaning` | sfxge_tx.c:1656-1683 | Frame k carries payload bytes from k*mss on, mss of them except in the last frame, under a header with exact length, identification start+k mod 2^16, sequence number start+k*mss mod 2^32, and the original flags on the last frame only |
| `TxLso.PayloadsJoin` | sfxge_tx.c:1666-1722 | The payloads of all frames, one behind the other, are the payload |
| `TxLso.InterimBits` | sfxge_tx.c:1656-1658 | Interim flags lose PUSH and FIN and no other bit |
| `TxLso.FieldsReadBack` | sfxge_tx.c:1671-1683 | Each header field reads back as it was set |
| `TxLso.FieldsSame` | sfxge_tx.c:1750-1755 | Putting back a header's own field values restores it byte for byte |
| `TxLso.CheckLso` | sfxge_tx.c:1589-1643 | Refuses exactly the packets that the condition on the bytes of the headers names, and moves b_rptr only when it does not |
| `TxLso.CheckedIs` | sfxge_tx.c:1589-1643 | The checks written out on header bytes |
| `TxLso.DontFragmentIsIgnored` | sfxge_tx.c:1628-1636 | The bit that forbids fragments does not change the answer |
| `TxLso.SendsDontFragment` | sfxge_tx.c:1566-1778 | A packet with that bit set, sent as two frames |
| `TxLso.SendFrame` | sfxge_tx.c:1666-1722 | One round of the loop sends exactly frame k |
| `TxLso.SendFrames` | sfxge_tx.c:1666-1722 | The loop sends all frames, and leaves a header that differs from the original in the edited fields only |
| `TxLso.RestoreHeader` | sfxge_tx.c:1750-1761 | The header is byte for byte the original again |
| `RxPools.StepKeeps` | sfxge_rx.c:354-594 | Every step keeps the pool in order: no packet is lost or in two places, ring slots are filled exactly for its descriptors, of which there are at most size-16, and the loan count is out plus put-list packets less preallocated plus lost ones |
| `RxPools.RunKeeps` | sfxge_rx.c:354-594 | Every run keeps the pool in order; the packets left are those there were and those created, without those destroyed; the loan count is off by the packets preallocated and lost in the run |
| `RxPools.StartIsOk` | sfxge_rx.c:163-243 | The pool of a new queue is in order and holds no packet |
| `RxPools.LoanedIsDocumented` | sfxge_rx.c:863-876 | After any run from the start, srfpp_loaned is the number of packets out or on put lists, less the preallocations and plus the losses of the run; so it has its documented meaning if and only if these are equally many |
| `RxPools.PreallocatedIsNotLoaned` | sfxge_rx.c:863-876 | A run of one preallocation after which one packet is on a put list and the loan count is zero |
| `RxPools.LostStaysLoaned` | sfxge_rx.c:553-594 | A run after which no packet is out or on a put list and the loan count is one, because the block of a freed packet could not be had again |
| `RxPool.Queue.constructor` | sfxge_rx.c:163-243 | A new queue is the abstract start: no packets, all counters zero |
| `RxPool.SwizzleEmpties` | sfxge_rx.c:379-446 | One round over all put lists empties each of them, from whichever list it starts |
| `RxPool.RefilledByKeeps` | sfxge_rx.c:754-860 | Refilling moves packets from the get list to the ring in order, and destroys stale ones only |
| `RxPool.RefilledMeans` | sfxge_rx.c:754-860 | What refilling takes, posts and destroys, packet by packet |
| `RxPool.PassedAreChosen` | sfxge_rx.c:1707-1846 | The packets passed on are those of the due slots with a tick, in ring order |
| `RxPool.AllHandledKeeps` | sfxge_rx.c:1707-1846 | Completion empties exactly the done slots; packets passed on are out with the stack, the others are on a put list or were destroyed for want of memory |
| `RxPool.Queue.FppPut` | sfxge_rx.c:354-377 | The packet joins the put list of its CPU; all else stays |
| `RxPool.Queue.PacketFree` | sfxge_rx.c:553-594 | A freed packet goes to a put list, or is lost exactly when its block cannot be had again |
| `RxPool.Queue.Swizzle` | sfxge_rx.c:379-446 | All put lists move in front of the get list, which otherwise stays, the loan count falls by their number, the get count is the list length |
| `RxPool.Queue.Refill` | sfxge_rx.c:754-860 | With room and target left, the put lists are taken in front of the get list; of the first packets there, as many as there is room for, those that are not stale fill the next slots in order, the stale ones are destroyed, and no other packet is; each slot filled holds one packet that is not stale; 32-bit counters in step with the true ones |
| `RxPool.Queue.Fill` | sfxge_rx.c:879-950 | Exactly as many new packets go into the next slots of the ring as room, target and memory allow, in order |
| `RxPool.Queue.Preallocate` | sfxge_rx.c:863-876 | New packets go on one put list without being counted as loans |
| `RxPool.Queue.Complete` | sfxge_rx.c:1707-1846 | The completion loop on wrapped counters handles exactly the pending descriptors, and its chain is the packets passed on, in ring order |
| `RxPool.Queue.Stop` | sfxge_rx.c:2064-2077 | After a stop the ring is empty, all counters are zero, and no packet is lost if blocks can be had |
| `Filters.ScanMeaning` | common/ef10_filter.c:581-631 | The probe stops at a conflicting filter whenever its window has one; otherwise it yields a free row, or finds that the window is full |
| `Filters.ExclusiveMacs` | common/ef10_filter.c:449-474 | A MAC filter is exclusive unless its address is a group address; the filters for all other packets never are |
| `Filters.ExclusiveHosts` | common/ef10_filter.c:449-474 | An IPv6 filter is exclusive unless its address is a multicast one; for IPv4 this holds if and only if the first byte is 238 or has no 14 in either half |
| `Filters.ExclusiveIsMistaken` | common/ef10_filter.c:464-468 | 14.0.0.1 is not treated as exclusive, 224.0.0.1 is |
| `FilterRules.ProbeAtRest` | common/ef10_filter.c:581-631 | In a table at rest the probe is never told to wait, and what it finds is a filter it may replace or renew, or a free row with no conflict anywhere |
| `FilterRules.ProbeAnswers` | common/ef10_filter.c:581-631 | Which of its answers the probe gives: the automatic filter like it, else an exclusive one to be replaced or refused, else a free row of the window, else none |
| `FilterThreads.ExclusiveFiltersAreUnique` | common/ef10_filter.c:476-822 | In every interleaving of adds, deletes and restores, with the lock released during firmware calls, also when a restore is refused: every filter lies in its own 200-row window, and two equal exclusive filters are never in the table |
| `FilterThreads.StepKeepsInv` | common/ef10_filter.c:476-822 | Every step of any thread keeps that invariant |
| `FilterThreads.AbandonedStays` | common/ef10_filter.c:476-538 | A row that a refused restore leaves busy stays so, with its filter, in every run from there |
| `FilterThreads.AbandonedBlocksAdds` | common/ef10_filter.c:476-631 | If its filter is exclusive, every later add of an equal one is told to try again |
| `FilterTable.Table.Probe` | common/ef10_filter.c:587-628 | The probing loop computes the outcome of the scan |
| `FilterTable.Table.AddInternal` | common/ef10_filter.c:544-730 | A successful add leaves its filter in one row and touches no other; a refused one leaves no automatic filter like it. The answer is exact: an automatic filter like it is renewed without a request; an exclusive one that may not be replaced gives EEXIST; a full window gives EBUSY; in every other case it is that of the firmware |
| `FilterTable.Table.Install` | common/ef10_filter.c:658-715 | The row is busy during the request, then holds the filter or is free |
| `FilterTable.Table.DeleteInternal` | common/ef10_filter.c:753-822 | The row is freed whatever the firmware answers; ENOENT exactly for a free row |
| `FilterTable.Table.RemoveOld` | common/ef10_filter.c:1175-1187 | Exactly the rows marked old are freed |
| `FilterTable.Table.MarkOld` | common/ef10_filter.c:1278-1286 | Exactly the tracked rows are marked |
| `FilterTable.Table.InsertMulticastList` | common/ef10_filter.c:1043-1138 | Inserts the addresses and the broadcast filter, or rolls back every one of them when asked to; tracking follows exactly |
| `FilterTable.Table.InsertAllMulticast` | common/ef10_filter.c:1140-1173 | The all-multicast filter is added and tracked, or refused with nothing changed in tracking |
| `FilterTable.Table.UnicastPhase` | common/ef10_filter.c:1305-1312 | The MAC filter always, the unknown-unicast filter if asked for or as a fallback; which were refused |
| `FilterTable.Table.MulticastPhase` | common/ef10_filter.c:1343-1402 | The multicast filters with both fallbacks; under chaining never both kinds of filter in the table |
| `FilterTable.Table.Apply` | common/ef10_filter.c:1232-1432 | It completes unless both unicast filters were refused or the workaround query failed. Then: automatic filters are exactly the tracked ones, all wanted, and all the wanted ones if nothing was refused; ENOTSUP exactly when a requested all-unicast or all-multicast filter was refused. Otherwise: multicast filters untouched, and tracking stays exact if and only if every unicast filter tracked before the call is wanted still |
| `FilterTable.Table.Reconfigure` | common/ef10_filter.c:1232-1432 | The same with the case of no default queue; when 0 or ENOTSUP is returned, tracking stays exact if and only if not both unicast filters were refused or none was tracked before; with nothing new supported both are refused and ENOTSUP is returned. Every automatic filter goes to the default queue with the RSS setting and context of the table, unless it was there before; a tracked row that was automatic before keeps its destination |
| `FilterTable.Table.SetQueue` | common/ef10_filter.c:1449-1475 | Another default queue or RSS setting changes no filter that is there |
| `FilterTable.Table.WantedAre` | common/ef10_filter.c:964-1173 | Which filters a configuration wants, as match fields |
| `FilterTable.LosesTrack` | common/ef10_filter.c:1305-1312 | A table reached by a successful call, and a second call that returns ENOTSUP and leaves an automatic filter untracked |
| `FilterTable.Run` | common/ef10_filter.c:1232-1432 | Any run of reconfigurations with any firmware answers: own probe windows, no equal exclusive filters, no row marked old, and under chaining never both kinds of automatic multicast filter. Every automatic filter goes to the queue, with the RSS setting and context, of one of the configurations. The automatic filters are exactly the tracked ones after every run in which no workaround query failed and no call had both unicast filters refused with one tracked before it; refused both is to track none afterwards |
| `TlvFormat.PackUnpack` | common/ef10_nvram.c:376-398 | The bytes written to value words read back |
| `TlvFormat.ItemReadsBack` | common/ef10_nvram.c:376-398 | The value of an item made from bytes is those bytes |
| `TlvFormat.SegmentIsFound` | common/ef10_nvram.c:142-174 | Items encoded in the words are exactly what the walk finds |
| `TlvFormat.FoundIsSegment` | common/ef10_nvram.c:142-174 | A sound chain the walk finds is the encoding of its items |
| `TlvSplice.SplicedItems` | common/ef10_nvram.c:400-584 | An edit at an item boundary changes exactly that item of the first segment; every later segment keeps its items and follows on, and then comes exactly what is found behind the last of them, which is nothing if no END was behind it before |
| `TlvSplice.SegmentsShift` | common/ef10_nvram.c:349-373 | Segments moved as a whole are all found again, followed by exactly what is found behind them |
| `TlvSplice.SplicedTail` | common/ef10_nvram.c:455-584 | Behind the last END freed words are zero and all others are as they were |
| `TlvSplice.InsertThenDelete` | common/ef10_nvram.c:400-496 | Inserting and then deleting the same words restores the block up to its last END |
| `TlvCursor.MovedUp` | common/ef10_nvram.c:400-453 | Moving up and writing over the gap is an exact splice |
| `TlvCursor.MovedDown` | common/ef10_nvram.c:455-496 | The move that reads past the last END, then zeroing, is an exact splice |
| `TlvCursor.MovedBack` | common/ef10_nvram.c:541-584 | Shrinking an item in place is an exact splice |
| `TlvCursor.Cursor.ValidateState` | common/ef10_nvram.c:212-256 | Succeeds exactly for a position with END or room for an item and a further tag |
| `TlvCursor.Cursor.Advance` | common/ef10_nvram.c:142-174 | Steps to the next item; stops at END only when the end is known |
| `TlvCursor.Cursor.Find` | common/ef10_nvram.c:195-210 | Arrives exactly where the walk first meets the tag |
| `TlvCursor.Cursor.RequireEnd` | common/ef10_nvram.c:302-324 | Finds the END of the first segment |
| `TlvCursor.Cursor.LengthUsed` | common/ef10_nvram.c:326-347 | The words of the first segment with its END |
| `TlvCursor.Cursor.LastSegmentEnd` | common/ef10_nvram.c:349-373 | The END of the last of the segments that follow each other |
| `TlvCursor.Cursor.Insert` | common/ef10_nvram.c:400-453 | An exact splice, or a refusal that changes no word, with ENOSPC exactly for want of room; the end pointer follows |
| `TlvCursor.Cursor.Delete` | common/ef10_nvram.c:455-496 | An exact splice out; the end pointer follows |
| `TlvCursor.Cursor.Modify` | common/ef10_nvram.c:498-584 | An exact splice in every case of growing, equal and shrinking, or a refusal that changes no word, with ENOSPC exactly when it grows and there is no room |
| `TlvImage.FindInSegment` | common/ef10_nvram.c:195-210 | A search arrives at the first item with the tag; if there is none it ends at a known end, and otherwise goes on two words behind END |
| `TlvImage.ForeignTailIsClean` | common/ef10_nvram.c:142-210 | It finds nothing there when no word equals the tag |
| `TlvImage.PutIsFound` | common/ef10_nvram.c:1544-1562 | A written item is found again, all other items keep order and value, and the frame stays |
| `TlvImage.StampBalances` | common/ef10_nvram.c:1564-1591 | Sealing keeps the items between header and trailer, raises both generations by one, sets the length and makes the words sum to zero |
| `TlvImage.ChecksumCloses` | common/ef10_nvram.c:586-657 | Both ways of computing the checksum make the sum zero modulo 2^32 |
| `NvramBuffer.UpdateLenAndChecksum` | common/ef10_nvram.c:609-657 | On a framed segment: length, both generations and checksum are right and no other word changes; otherwise nothing changes |
| `NvramBuffer.PartitionSum` | common/ef10_nvram.c:586-607 | The word sum of the first segment and its END |
| `NvramBuffer.Validate` | common/ef10_nvram.c:660-755 | Accepts exactly the stated condition on header, trailer, generations and sum; EFAULT and EFBIG exactly for a bad first item and a length beyond the block, else EINVAL |
| `NvramBuffer.BalancedIsAccepted` | common/ef10_nvram.c:660-755 | A framed segment in balance is accepted |
| `NvramBuffer.EditedBuffer` | common/ef10_nvram.c:1007-1072 | An edit between header and trailer gives the edited item list in a buffer of the same kind |
| `NvramBuffer.InsertItem` | common/ef10_nvram.c:1007-1042 | Succeeds exactly when the item fits; then the list has the item at that place, else nothing changes |
| `NvramBuffer.DeleteItem` | common/ef10_nvram.c:1044-1072 | The list without that item; the words behind the buffer that the move reads, which must exist, are unchanged |
| `NvramBuffer.Finish` | common/ef10_nvram.c:1074-1105 | The list with its bookkeeping brought up to date |
| `NvramBuffer.Create` | common/ef10_nvram.c:759-835 | Succeeds exactly from 44 bytes on, and leaves a sealed empty partition |
| `NvramBuffer.TenWordsRefused` | common/ef10_nvram.c:759-835 | Forty bytes, which the size check admits, give an image that the validation refuses |
| `NvramBuffer.Session` | common/ef10_nvram.c:759-1105 | Create, any run of inserts and deletes between header and trailer, and finish: the validation accepts the result, which holds exactly the edited list |
| `NvramTlv.ReadTlv` | common/ef10_nvram.c:1244-1304 | Returns the value of the first item with the tag; ENOENT exactly for an absent tag, EFAULT for a block without a first item, ENOMEM without memory for the value, EINVAL for an empty one |
| `NvramTlv.PutTlv` | common/ef10_nvram.c:1544-1562 | Modifies the first item with the tag, or inserts before the trailer, as one splice, exactly when the chain ends and the item fits; also when the tag stands again behind END, if the segment has it itself |
| `NvramTlv.SealTlv` | common/ef10_nvram.c:1564-1591 | The bookkeeping of the edited segment |
| `NvramTlv.WriteTlv` | common/ef10_nvram.c:1515-1609 | Succeeds exactly when there is a header, the chain ends and the item fits; then the segment is rewritten as specified, else no word changes and the return code is the stated one |
| `NvramTlv.WriteReadsBack` | common/ef10_nvram.c:1515-1609 | After a write the tag reads back, other items keep order and value, generations are one up, the length is the bytes used and the words sum to zero |
| `NvramTlv.WriteUpdates` | common/ef10_nvram.c:1544-1591 | What a write makes of a segment: the first item with the tag is replaced, or the new one comes last in front of the trailer; all others stay, both generations are one up, and length and sum are right |
| `NvramTlv.WriteThenRead` | common/ef10_nvram.c:1244-1609 | Writing and then reading gives the bytes written |
| `NvramTlv.ZeroTailIsWritable` | common/ef10_nvram.c:142-210 | A zero tail and a tag other than zero are enough for the search of a write to stay in the segment |
| `NvramTlv.WriteReachesIff` | common/ef10_nvram.c:1544-1562 | A write edits the segment itself if and only if the tag is in it or the walk behind END does not meet the tag; otherwise it edits the words there |
| `NvramTlv.StrayIsReached` | common/ef10_nvram.c:142-210 | Words of a newly created partition followed by a stray item: the segment lacks the tag, and the write goes behind its END |
| `NvramSegments.ReadSegment` | common/ef10_nvram.c:1115-1238 | Succeeds exactly when both reads succeed and the segment is accepted; what was fetched is in memory at the given place, in the buffer or behind it, and no other word changes |
| `NvramSegments.SegmentSize` | common/ef10_nvram.c:1384-1509 | Accepts exactly the stated condition on header, trailer, sum, used length and repeated headers, and returns the bytes used; EFBIG exactly for a length beyond the block |
| `NvramSegments.TrailerEndsSegment` | common/ef10_nvram.c:1415-1466 | An accepted segment ends with its trailer if and only if the trailer that was found lies in front of the first END |
| `NvramSegments.TrailerMayBeStray` | common/ef10_nvram.c:1463-1467 | Concrete words without a trailer of their own that are accepted |
| `NvramSegments.AcceptedIff` | common/ef10_nvram.c:1115-1481 | Of the segments of a partition exactly those in balance that do not end flush with it are accepted |
| `NvramSegments.SegmentWriteTlv` | common/ef10_nvram.c:1632-1692 | Succeeds if and only if the reads are answered, the segment can be read and is in balance, does not end flush with the partition, and the item fits if it is written; the source rest is exact and the destination rest wraps when more was put out than the buffer holds; the output is the segment, written to exactly when asked |
| `NvramSegments.FlushIsLost` | common/ef10_nvram.c:1745-1772 | A last segment that ends flush with the partition is never taken |
| `NvramCases.LosesFlush` | common/ef10_nvram.c:1745-1781 | A partition of two segments in balance, the second flush: return code 0 and one segment in the output |
| `NvramSegments.ClearIsStrayFree` | common/ef10_nvram.c:142-210 | A segment that has the tag, or no word equal to the tag within a chunk behind it, keeps the search of a write in it |
| `NvramSegments.PartitionWriteTlv` | common/ef10_nvram.c:1697-1781 | The memory holds the first segments of the partition in order, the first one, or all of them when asked for, with the item replaced or put in front of the trailer and the others as they were, up to the first one that is not taken, and all of them if and only if each is taken; success exactly when one was taken and they fit the buffer together, ENOSPC when they outgrow it, which cannot happen if all are written to; words are changed up to the furthest read only |
| `NvramSegments.ReadsStayInside` | common/ef10_nvram.c:1745-1772 | All reads stay inside the buffer if and only if each segment taken, and at least one chunk, fits behind what was put out before it, and so does what is read where the loop ends |
| `NvramCases.Outgrows` | common/ef10_nvram.c:1745-1781 | A partition of 128 words with segments of 40 and 87 words and a new item of 3: the call writes an END two words behind its buffer and returns ENOSPC |
| `Toeplitz.WindowSlides` | sfxge_hash.c:136-140 | Shifting left and bringing in the next key bit slides the 32-bit key window by one |
| `Toeplitz.WindowAtByte` | sfxge_hash.c:131-135 | Reading four key bytes gives the window at a byte boundary |
| `Toeplitz.CacheInit` | sfxge_hash.c:118-154 | The table filled by the nested loops holds, for every position and byte value, the XOR of the windows at its set bits |
| `Toeplitz.HashBytes` | sfxge_hash.c:46-56 | The table lookups of a byte string |
| `Toeplitz.BytesAreBits` | sfxge_hash.c:82-117 | The byte-by-byte hash equals the bit-by-bit hash, for every key and input |
| `Toeplitz.ZeroBytes` | sfxge_hash.c:70-78 | Zero bytes contribute nothing |
| `Toeplitz.Hash` | sfxge_hash.c:58-80 | For every key, addresses and ports the result is the bitwise Toeplitz hash of the whole 4-tuple, ports skipped or not |
| `Events.CountRecovered` | common/ef10_ev.c:537-553 | The four reported bits recover the completed count if and only if it is at most 15; 16, which the batch limit allows, reads as zero |
| `Events.RxEvents.ReadPointer` | common/ef10_ev.c:537-553 | The read pointer advances by that count, modulo 2^32 |
| `Events.RxEvents.Event` | sfxge_ev.c:237-318 | Read pointer and pending counter stay the true count modulo 2^32; exactly the counted slots are marked; an exception exactly for a count that is neither one nor an allowed batch |
| `RingSlots.DeltaIsCount` | sfxge_ev.c:267-271 | The distance round the ring is the true count |
| `Events.RxPost` | common/ef10_rx.c:633-669 | The addresses go into the slots behind those added, and no other slot of the ring changes |
| `Events.RxPush` | common/ef10_rx.c:671-700 | The pushed pointer is a multiple of 8, at most added and less than 8 behind it |
| `Events.PushedIsAligned` | common/ef10_rx.c:671-700 | That multiple stands for the true count, also once the counters have wrapped |
| `Events.TxPost` | common/ef10_tx.c:410-466 | A list is refused exactly when it does not fit on wrapped counters; else it goes into the slots behind those added, and no other slot changes |

## Left out

- RxLro.Receive: for a single run the condition for order is sufficient only; over all runs RxCases.OrderlyIff is exact.
- RxLro.RxQueue.Complete: the chain is the one before the drop that follows when the receive ring has run empty (sfxge_rx.c:1908-1917); trimming of link-layer padding and the `_USE_GLD_V3_SOL10` block are not modelled; the hash is any function of the TCP 4-tuple.
- TxDpl.Dpl.Push: the compare-and-swap loop is its one successful step; memory is sequentially consistent, and reuse of a packet structure between load and swap is not modelled.
- TxDpl.Dpl.Drain: which packet blocks the queue is a free choice; the blocking itself is in TxUnblock and TxRing.
- TxRing.TxQueue.PostRound: one round of the retry loop; the loop as a whole need not end by itself, since it waits for the event thread to store st_completed when everything is pending but not yet completed.
- TxRing.TxQueue.Reap: st_reaped is stored once per slot rather than once at the end, as is sr_completed in RxPool; nobody else reads them in between.
- TxDescs.Bind: the cookies of a block span at most the 18 pages of a mapping, and every cookie but the last ends on a 4K boundary, as the DMA attributes demand.
- TxFragmenter.Queue.PacketFragment: binding a mapping succeeds, no block is empty and the message is shorter than LONG_MAX; whether a mapping can be allocated is free, and buffers can be had while a pool of any size lasts; DMA synchronisation is not modelled.
- TxLso.LsoFragment: the payload is not empty, the headers lie in the first block and the packet structure agrees with them, as parsing the packet leaves it.
- RxPool.Queue.FppPut: the put, get and ring lists of this module, the mapping and buffer chains of TxRing and the mblk chains of RxLro are sequences; only the deferred packet list (TxDpl) is modelled with its links and tail pointers.
- RxPool.Queue.Complete: flag decoding and coalescing appear as the choice which packets are passed on; pool trimming (sfxge_rx.c:953-1029) is not modelled.
- RxPool.Queue.Swizzle: the assertion that the loan count is at least the number of packets taken is not part of the contract, since preallocation can violate it.
- Events.RxEvents.Event: decoding of checksum, fragment and VLAN flags and the descriptor-error paths are not modelled.
- Events.RxPush: memory barriers and the doorbell register are not modelled.
- FilterTable.Table.Apply: at most 256 group addresses, the MAC address is no group address, and the multicast-chaining flag is constant over a run; the filter hash is any function of the match fields. An automatic filter that is renewed keeps its old destination, as in the code.
- FilterThreads.ExclusiveFiltersAreUnique: a failed add's cleanup is one step, and so is marking a row old or current, which the driver does without the lock (common/ef10_filter.c:1278-1286); nothing is claimed of the gap between lookup and removal in `ef10_filter_delete`.
- NvramTlv.WriteTlv: the host is little-endian and sizes are whole words; the words that the moves of delete and shrink read past the last END (common/ef10_nvram.c:479-482, 556-561) must lie in the array, in or behind the block, and are proved unchanged; what such a read outside of it would yield is not modelled. The segment keeps the search inside itself, for the exact case of which see NvramTlv.WriteReachesIff.
- NvramBuffer.Session: the array is at least twice as long as the buffer, so that those words lie in it whatever the edits.
- NvramSegments.PartitionWriteTlv: the partition holds framed segments, and each segment that the loop comes to and writes to keeps the search inside itself; the memory behind the buffer, up to the length of the partition and one chunk, is part of the same array, so that what lies there is known; reads that would leave the partition count as failed; locking, erasing and writing back the partition are not modelled.
- Finding items and END by offset in a licence buffer (common/ef10_nvram.c:845-1005): positions are given as item numbers instead.
- Attach, detach, ioctls, link modes, MAC and PHY statistics, kstats and VPD: plumbing and field copies.
- Label allocation, PIO bitmap, multicast list editing and CRC32: easy members.
