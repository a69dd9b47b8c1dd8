# Vendor driver and boot image models

Dafny models of eleven parts of the vendor code: the AIC8800 USB driver
and the Sophgo FIP image tool. Each part has an abstract specification and the
code's own form, updated in place, proved to refine it; the main results are
about all inputs, all runs or all interleavings.

| files | part | specification |
|---|---|---|
| Common.dfy | shared types | |
| Md5Spec.dfy, Md5.dfy | streaming MD5 (md5.c, md5.h) | section 3 of RFC 1321, written as a table of 64 operations |
| TcpAck.dfy, TcpAckPace.dfy, TcpAckCover.dfy, TcpAckTable.dfy | TCP ACK coalescer (aicwf_tcp_ack.c) | the table as a value; runs of calls with a ledger of a message, a trace of the answers one flow gets, and a history of the numbers each flow has sent |
| IpcRing.dfy | transmit descriptor rings (ipc_host.c) | a FIFO of host ids |
| Nat25.dfy | NAT2.5 hash table (aic_br_ext.c) | a finite map from network addresses |
| FrameEdits.dfy | VLAN shift and DHCP checksum (aic_br_ext.c) | remove and reinsert a tag; one's complement sums |
| Fip.dfy, FipImage.dfy, FipTool.dfy | FIP builder and reader (fiptool.py) | a package of entries and bodies, its image, and what the image's bytes lead to |
| UsbReassembly.dfy | USB receive reassembly (aicwf_usb.c) | packets cut into pieces |
| TxPool.dfy | USB transmit buffers and watermarks (aicwf_usb.c) | interleaved steps |
| FrameQueue.dfy | priority frame queue (aicwf_txrxif.c) | one sequence in order of service |
| Deaggregate.dfy | aggregated receive splitting (aicwf_txrxif.c) | concatenation of packets |
| Steering.dfy | band-steering block list (aicwf_steering.c) | a bounded map with countdowns |

Some promises do not hold of the code as it is. For each there is a lemma with
the input, or the exact condition under which the code is right:

- MD5Update: for lengths near 2^32 the block loop's 32-bit guard wraps and the loop never ends (`Md5.BlockLoopEndsIff`, `Md5.BlockLoopRunsOver`).
- ACK coalescing: a slot that is reused while it holds a message drops the last ACK of its old flow (`TcpAckCover.SafeUnlessLost`, `TcpAckCover.StaleHeldIsDropped`); the flow that has the slot is always covered.
- Confirmation loop: a refusing callback that pushes into the last cell loses an id (`IpcRing.RefusalRestores`); one that accepts and pushes for ever keeps the loop going (`IpcRing.LoopEndsIff`, `IpcRing.NeverDone`).
- FIP: a loader shorter than its 32-byte header loses the front of its compressed body (`FipImage.WholeHeaderIff`, `FipImage.ShortHeaderLoses`); without DDR_PARAM, read_fip takes PARAM1 for PARAM2 (`FipFormat.RoundTrip`, `FipFormat.ReadsHeaderAsParam2`).
- Transmit flow control: refused submissions return buffers without a watermark check (`TxPool.StepWakesUp`, `TxPool.RefusalsLoseWakeUp`).
- Aggregated receive: skb_pull does not move on a buffer shorter than the packet, and the loop repeats (`Deaggregate.EndsIffWhole`, `Deaggregate.CutShortIsStuck`).
- Reassembly: a failed allocation loses the packet and makes its rest be read as packets (`UsbReassembly.PacketsArriveIff`, `UsbReassembly.AllocFailureMisreads`).
- DHCP broadcast flag: the checksum update adds the whole flags word (`DhcpChecksum.BroadcastVerifies`), can produce a zero field (`DhcpChecksum.BroadcastToZero`) and does not spare a zero checksum (`DhcpChecksum.ZeroCheckIsUpdated`).

Where code and comments differ, the model follows the code: the comment above
tcp_check_ack in aicwf_tcp_ack.c lines 211-214 gives ACKs with options (result
2) a meaning of their own, but the handler in use ignores the distinction.

## Model

| member | source | states |
|---|---|---|
| Md5.DigestOfChunks | kernel/aic8800-usb/src/aic8800_fdrv/md5.c:9-52 | for every message and every way of cutting it into MD5Update calls, Init, Update and Final give the RFC 1321 digest of the concatenation |
| Md5.MD5Context.constructor | kernel/aic8800-usb/src/aic8800_fdrv/md5.c:9-17 | a new context holds the empty message |
| Md5.MD5Context.MD5Init | kernel/aic8800-usb/src/aic8800_fdrv/md5.c:9-17 | whatever the context held, it now holds the empty message |
| Md5.MD5Context.MD5Update | kernel/aic8800-usb/src/aic8800_fdrv/md5.c:18-41 | the invariant is kept and the message held grows by exactly the bytes given: the state folds all whole blocks, buffer[..index] is the residue, count is the bit length modulo 2^64 |
| Md5.MD5Context.AbsorbBlocks | kernel/aic8800-usb/src/aic8800_fdrv/md5.c:28-35 | the block loop leaves the chaining words folding every whole block, and fewer than 64 bytes of input unread |
| Md5.MD5Context.AddLength | kernel/aic8800-usb/src/aic8800_fdrv/md5.c:23-26 | the two count words move from the bit length of n bytes to that of n + inputlen |
| Md5.MD5Context.KeepRest | kernel/aic8800-usb/src/aic8800_fdrv/md5.c:36-40 | copying the rest behind the residue re-establishes the invariant for the whole message |
| Md5.MD5Context.MD5Final | kernel/aic8800-usb/src/aic8800_fdrv/md5.c:42-52 | the digest written is the RFC 1321 digest of everything that was fed in, with the length taken modulo 2^64 |
| Md5.CountsAdd | kernel/aic8800-usb/src/aic8800_fdrv/md5.c:23-26 | adding len << 3 with the carry test and len >> 29 keeps the two wrapping words equal to the 64-bit bit length |
| Md5.LengthInBlock | kernel/aic8800-usb/src/aic8800_fdrv/md5.c:21 | (count[0] >> 3) & 0x3F is the number of bytes in the buffer, even after count[0] has wrapped |
| Md5.BlockLoopEndsIff | kernel/aic8800-usb/src/aic8800_fdrv/md5.c:28-35 | the block loop ends if and only if BlockLoopFits(index, inputlen), over the sequence of 32-bit indices it goes through |
| Md5.BlockLoopRunsOn | kernel/aic8800-usb/src/aic8800_fdrv/md5.c:32 | otherwise the guard is true at every turn |
| Md5.BlockLoopStops | kernel/aic8800-usb/src/aic8800_fdrv/md5.c:32 | where no whole block is left, the 32-bit guard i+64 <= inputlen is false exactly when i+64 does not wrap |
| Md5.BlockLoopRunsOver | kernel/aic8800-usb/src/aic8800_fdrv/md5.c:32 | an input of 2^32 - 1 bytes into an empty context is one for which the guard is true at every turn |
| Md5.FoldAppend | kernel/aic8800-usb/src/aic8800_fdrv/md5.c:32-33 | folding blocks is associative over a block boundary, so the cut does not matter |
| Md5.FoldNext | kernel/aic8800-usb/src/aic8800_fdrv/md5.c:29-33 | one MD5Transform extends the fold by one block |
| Md5.PaddedMessage | kernel/aic8800-usb/src/aic8800_fdrv/md5.c:46-50 | message, PADDING prefix and encoded count are the padded message of section 3 of RFC 1321 |
| Md5.MD5Encode | kernel/aic8800-usb/src/aic8800_fdrv/md5.c:53-65 | the bytes written are the little-endian encoding of the words, and nothing else changes |
| Md5.MD5Decode | kernel/aic8800-usb/src/aic8800_fdrv/md5.c:66-78 | the words written are the little-endian decoding of the bytes |
| Md5.DecodeEncode | kernel/aic8800-usb/src/aic8800_fdrv/md5.c:53-78 | decoding inverts encoding for every word sequence |
| Md5.MD5Transform | kernel/aic8800-usb/src/aic8800_fdrv/md5.c:79-161 | the unrolled 64 steps add to the state what the table-driven operations of RFC 1321 compute |
| Md5.FourOperations | kernel/aic8800-usb/src/aic8800_fdrv/md5.c:87-156 | four steps in the rotating register names are four operations of the specification |
| Md5.Round1 | kernel/aic8800-usb/src/aic8800_fdrv/md5.c:87-102 | steps 1 to 16 are operations 1 to 16 |
| Md5.Round2 | kernel/aic8800-usb/src/aic8800_fdrv/md5.c:104-120 | steps 17 to 32 are operations 17 to 32 |
| Md5.Round3 | kernel/aic8800-usb/src/aic8800_fdrv/md5.c:122-138 | steps 33 to 48 are operations 33 to 48 |
| Md5.Round4 | kernel/aic8800-usb/src/aic8800_fdrv/md5.c:140-156 | steps 49 to 64 are operations 49 to 64 |
| TcpAck.OnePlace | kernel/aic8800-usb/src/aic8800_fdrv/aicwf_tcp_ack.c:30-61 | over every run of calls, a message is as often returned to the caller, sent by the timer, dropped or held by a slot as it was offered; slots reused while holding a message are included |
| TcpAck.SlotsBooked | kernel/aic8800-usb/src/aic8800_fdrv/aicwf_tcp_ack.c:260-348 | over every run, max_num is the number of busy slots, free_index is -1 or a slot that is not busy, and no two busy slots serve one 4-tuple |
| TcpAck.AllocSucceeds | kernel/aic8800-usb/src/aic8800_fdrv/aicwf_tcp_ack.c:313-348 | an index is refused exactly when all 32 slots are busy, so the scan finds one whenever it is reached |
| TcpAck.StepInv | kernel/aic8800-usb/src/aic8800_fdrv/aicwf_tcp_ack.c:30-645 | each call keeps bookkeeping and conservation |
| TcpAck.InitialInv | kernel/aic8800-usb/src/aic8800_fdrv/aicwf_tcp_ack.c:63-94 | they hold when the table has just been set up |
| TcpAck.TimerInv | kernel/aic8800-usb/src/aic8800_fdrv/aicwf_tcp_ack.c:49-60 | so does the timer of any slot at any time |
| TcpAck.ShutdownInv | kernel/aic8800-usb/src/aic8800_fdrv/aicwf_tcp_ack.c:96-121 | so does deinit, which drops what is held once |
| TcpAck.QuietInv | kernel/aic8800-usb/src/aic8800_fdrv/aicwf_tcp_ack.c:529-552 | so do the receive filter and send-done |
| TcpAck.FilterSendMoves | kernel/aic8800-usb/src/aic8800_fdrv/aicwf_tcp_ack.c:555-623 | the offered message and those held before are afterwards returned, dropped or held, each as often |
| TcpAck.HandleMoves | kernel/aic8800-usb/src/aic8800_fdrv/aicwf_tcp_ack.c:464-525 | of the new message and the held one, each is in one place after tcp_ack_handle_new |
| TcpAck.FilterSendBooked | kernel/aic8800-usb/src/aic8800_fdrv/aicwf_tcp_ack.c:555-623 | the send filter keeps the slot bookkeeping |
| TcpAck.AgeBooked | kernel/aic8800-usb/src/aic8800_fdrv/aicwf_tcp_ack.c:288-310 | ageing keeps the slot bookkeeping |
| TcpAck.Match | kernel/aic8800-usb/src/aic8800_fdrv/aicwf_tcp_ack.c:260-285 | the slot found is the first that serves the flow; -1 only when none does |
| TcpAck.HeldCounts | kernel/aic8800-usb/src/aic8800_fdrv/aicwf_tcp_ack.c:465-502 | the number of messages held is the number of slots holding one |
| TcpAckCover.EveryEpoch | kernel/aic8800-usb/src/aic8800_fdrv/aicwf_tcp_ack.c:447-527 | over every run, an epoch of a flow in a slot, over or not, that spans less than 2^31 has every dropped ACK covered by one at or after it that was handed to the sender or is held, if and only if its latest number was handed over or is held |
| TcpAckCover.DroppedAreCovered | kernel/aic8800-usb/src/aic8800_fdrv/aicwf_tcp_ack.c:447-527 | so over every run, while a flow has its slot and filtering is enabled, all its dropped ACKs are covered, whatever the slot held when the flow got it |
| TcpAckCover.SafeUnlessLost | kernel/aic8800-usb/src/aic8800_fdrv/aicwf_tcp_ack.c:464-506 | the latest number stops being out or held at exactly two kinds of event: with filtering enabled, another flow that now has the slot sends an ACK not older than the number in it, or deinit, while the message is held and its number never went out; with filtering disabled a later ACK of the flow regains it |
| TcpAckCover.SafeOverRun | kernel/aic8800-usb/src/aic8800_fdrv/aicwf_tcp_ack.c:464-506 | over any run without deinit, an epoch stays covered if and only if none of its events is such a loss |
| TcpAckCover.StaleHeldIsDropped | kernel/aic8800-usb/src/aic8800_fdrv/aicwf_tcp_ack.c:599-619 | a run of five calls, computed to its end, that leaves the epoch of an expired flow uncovered and that of its successor covered |
| TcpAckCover.StepTrack | kernel/aic8800-usb/src/aic8800_fdrv/aicwf_tcp_ack.c:30-645 | each call keeps, for every epoch, that what was seen is out, dropped or held and that the latest is known, and for every slot whose message is in it |
| TcpAckCover.SendTrack | kernel/aic8800-usb/src/aic8800_fdrv/aicwf_tcp_ack.c:555-623 | the send filter does, whatever branch it takes |
| TcpAckCover.MatchTrack | kernel/aic8800-usb/src/aic8800_fdrv/aicwf_tcp_ack.c:576-597 | so does an ACK of a flow in the table |
| TcpAckCover.RenewedTrack | kernel/aic8800-usb/src/aic8800_fdrv/aicwf_tcp_ack.c:464-499 | the number in the slot becomes the latest of its epoch, and the message that was held is dropped from the epoch it belongs to |
| TcpAckCover.BegunTrack | kernel/aic8800-usb/src/aic8800_fdrv/aicwf_tcp_ack.c:599-619 | a slot given to a new flow begins an epoch and keeps the message of the old one |
| TcpAckCover.TimerTrack | kernel/aic8800-usb/src/aic8800_fdrv/aicwf_tcp_ack.c:49-60 | the timer hands over the message held, of whichever epoch |
| TcpAckCover.ShutdownTrack | kernel/aic8800-usb/src/aic8800_fdrv/aicwf_tcp_ack.c:96-121 | deinit drops every message held |
| TcpAckCover.InitialTrack | kernel/aic8800-usb/src/aic8800_fdrv/aicwf_tcp_ack.c:63-94 | the table that was just set up |
| TcpAckCover.OneRun | kernel/aic8800-usb/src/aic8800_fdrv/aicwf_tcp_ack.c:30-645 | the runs with the numbers go through the same tables as those with the messages |
| TcpAckCover.CoveredIffSafe | kernel/aic8800-usb/src/aic8800_fdrv/aicwf_tcp_ack.c:464 | within half the space covering all drops and having the latest number out or held are the same |
| TcpAckCover.SpanOrder | kernel/aic8800-usb/src/aic8800_fdrv/aicwf_tcp_ack.c:464 | within half the sequence space the signed 32-bit test is the serial order of section 3.4 of RFC 9293 |
| TcpAckCover.LatestGrows | kernel/aic8800-usb/src/aic8800_fdrv/aicwf_tcp_ack.c:464-506 | the later of the latest and a new number is the latest |
| TcpAckPace.Pace | kernel/aic8800-usb/src/aic8800_fdrv/aicwf_tcp_ack.c:447-645 | over every run during which a flow keeps its slot, whatever other calls come in between, an ACK is let through if and only if it is not older than the latest number and either goes past a pushed number or nothing is in flight and it is at least the 10th since a message last went out; one in order displaces the message held, another is dropped; the timer sends what is held exactly when nothing is in flight; and number, push, count, time and messages in the slot are those the trace tells |
| TcpAckPace.PaceFrom | kernel/aic8800-usb/src/aic8800_fdrv/aicwf_tcp_ack.c:447-645 | the same from a slot and a trace that agree, call by call |
| TcpAckPace.OfferedTells | kernel/aic8800-usb/src/aic8800_fdrv/aicwf_tcp_ack.c:464-523 | the answer to one ACK obeys the law and the slot agrees with the longer trace |
| TcpAckPace.FiredTells | kernel/aic8800-usb/src/aic8800_fdrv/aicwf_tcp_ack.c:47-60 | so does the timer |
| TcpAckPace.FinishedTells | kernel/aic8800-usb/src/aic8800_fdrv/aicwf_tcp_ack.c:638-643 | exactly the message in flight is done when it is reported |
| TcpAckPace.PushedTells | kernel/aic8800-usb/src/aic8800_fdrv/aicwf_tcp_ack.c:545-551 | a pushed segment is remembered, in place of an earlier one |
| TcpAckPace.StepTells | kernel/aic8800-usb/src/aic8800_fdrv/aicwf_tcp_ack.c:447-645 | so does every call, also those of other flows |
| TcpAckPace.PushAnswered | kernel/aic8800-usb/src/aic8800_fdrv/aicwf_tcp_ack.c:479-497 | after a pushed segment, the first ACK in order past it is let through at once, whatever is in flight and however few came before; the one held is dropped |
| TcpAckPace.BurstOfCalls | kernel/aic8800-usb/src/aic8800_fdrv/aicwf_tcp_ack.c:485-497 | of a burst of ACKs with rising numbers, with nothing held, pushed or in flight before, exactly the tenth is let through |
| TcpAckPace.TenthOfBurst | kernel/aic8800-usb/src/aic8800_fdrv/aicwf_tcp_ack.c:485-497 | the same of any trace that obeys the law |
| TcpAckPace.OpenedThenPasses | kernel/aic8800-usb/src/aic8800_fdrv/aicwf_tcp_ack.c:599-619 | the first ACK of a flow passes, and the next one in order does exactly if the slot is not still sending for an earlier flow |
| TcpAckPace.UnservedPass | kernel/aic8800-usb/src/aic8800_fdrv/aicwf_tcp_ack.c:572-586 | nothing but an ACK of a flow that has a slot, with filtering enabled, is held back or displaces a message |
| TcpAckPace.GivenUpIff | kernel/aic8800-usb/src/aic8800_fdrv/aicwf_tcp_ack.c:288-310 | ageing frees a slot exactly if neither the table was aged nor the flow heard of for more than 400 jiffies, across the wrap of the clock; nothing else in it changes |
| TcpAckPace.SilentFlowLeaves | kernel/aic8800-usb/src/aic8800_fdrv/aicwf_tcp_ack.c:288-310 | so at the end of a run a flow loses its slot exactly if its last ACK in the trace is that long ago and the table is due |
| TcpAckPace.TimeAfterIs | kernel/aic8800-usb/src/aic8800_fdrv/aicwf_tcp_ack.c:294-299 | the signed comparison of jiffies is elapsed time, as far as half the range can tell |
| TcpAckPace.GivenUpRests | kernel/aic8800-usb/src/aic8800_fdrv/aicwf_tcp_ack.c:49-643 | timer, receive filter and send-done leave a slot alone that has been given up |
| TcpAckPace.ShutdownPasses | kernel/aic8800-usb/src/aic8800_fdrv/aicwf_tcp_ack.c:96-121 | after deinit nothing is held, filtered or dropped |
| TcpAckTable.AckManager.constructor | kernel/aic8800-usb/src/aic8800_fdrv/aicwf_tcp_ack.c:63-94 | the initial table |
| TcpAckTable.AckManager.TcpAckUpdate | kernel/aic8800-usb/src/aic8800_fdrv/aicwf_tcp_ack.c:288-310 | the downward loop frees exactly the expired slots, counts them off max_num and leaves free_index at the lowest |
| TcpAckTable.AckManager.AgeAll | kernel/aic8800-usb/src/aic8800_fdrv/aicwf_tcp_ack.c:296-307 | the loop itself, with the counters it maintains |
| TcpAckTable.AckManager.TcpAckMatch | kernel/aic8800-usb/src/aic8800_fdrv/aicwf_tcp_ack.c:260-285 | the search loop finds what Match specifies |
| TcpAckTable.AckManager.TcpAckAllocIndex | kernel/aic8800-usb/src/aic8800_fdrv/aicwf_tcp_ack.c:313-348 | the index and the counters after allocation, by either way |
| TcpAckTable.AckManager.TcpAckHandleNew | kernel/aic8800-usb/src/aic8800_fdrv/aicwf_tcp_ack.c:447-527 | the field updates of one slot, the message dropped and the verdict are those of Handle; no other slot changes |
| TcpAckTable.AckManager.FilterSendTcpAck | kernel/aic8800-usb/src/aic8800_fdrv/aicwf_tcp_ack.c:555-623 | the whole call is FilterSend on the table |
| TcpAckTable.AckManager.FilterRxTcpAck | kernel/aic8800-usb/src/aic8800_fdrv/aicwf_tcp_ack.c:529-552 | the whole call is FilterRx on the table |
| TcpAckTable.AckManager.TcpAckTimeout | kernel/aic8800-usb/src/aic8800_fdrv/aicwf_tcp_ack.c:47-60 | the message handed to intf_tx and the slot after it |
| TcpAckTable.AckManager.MoveTcpackMsg | kernel/aic8800-usb/src/aic8800_fdrv/aicwf_tcp_ack.c:625-645 | exactly the busy slots that were sending the message stop doing so |
| TcpAckTable.AckManager.TcpAckDeinit | kernel/aic8800-usb/src/aic8800_fdrv/aicwf_tcp_ack.c:96-121 | every held message is dropped as often as it was held, and no slot holds one after |
| IpcRing.TxRing.constructor | kernel/aic8800-usb/src/aic8800_fdrv/ipc_host.c:319-400 | an empty ring of one of the sizes |
| IpcRing.TxRing.DescGet | kernel/aic8800-usb/src/aic8800_fdrv/ipc_host.c:565-587 | a descriptor is found exactly when the ring is not full, across index wrap, and its host id is null |
| IpcRing.TxRing.DescPush | kernel/aic8800-usb/src/aic8800_fdrv/ipc_host.c:591-611 | the FIFO grows by the id at its end |
| IpcRing.TxRing.Fill | kernel/aic8800-usb/src/aic8800_fdrv/ipc_host.c:252 | a callback that pushes again gets exactly the room that the already advanced used index leaves |
| IpcRing.TxRing.Flush | kernel/aic8800-usb/src/aic8800_fdrv/ipc_host.c:299-315 | the oldest id leaves the FIFO, or null and no change when it is empty |
| IpcRing.TxRing.CfmOne | kernel/aic8800-usb/src/aic8800_fdrv/ipc_host.c:232-262 | one turn: empty restores the index exactly, accept pops, refuse restores the id in front; all for callbacks that push |
| IpcRing.TxRing.RollBack | kernel/aic8800-usb/src/aic8800_fdrv/ipc_host.c:255-256 | the refused id is in front of the FIFO again, and the used index as it was |
| IpcRing.TxRing.CfmHandler | kernel/aic8800-usb/src/aic8800_fdrv/ipc_host.c:226-266 | on answers within which the loop ends, it does to the FIFO what Confirm says; ids confirmed or flushed followed by the FIFO remain the ids pushed |
| IpcRing.LoopEndsIff | kernel/aic8800-usb/src/aic8800_fdrv/ipc_host.c:229-263 | for any callback the loop ends if and only if, for some n, its first n answers accept and either the ids in the ring and those pushed by then are n in all, or the next answer refuses |
| IpcRing.EndsIff | kernel/aic8800-usb/src/aic8800_fdrv/ipc_host.c:229-263 | the same within a list of answers |
| IpcRing.EnoughAnswers | kernel/aic8800-usb/src/aic8800_fdrv/ipc_host.c:229-263 | a callback that always accepts and offers no more ids than it can confirm lets the loop end |
| IpcRing.ConfirmIsFifo | kernel/aic8800-usb/src/aic8800_fdrv/ipc_host.c:226-266 | ids confirmed followed by ids left are the ids before followed by those pushed: first in, first out, none lost |
| IpcRing.AllConfirmed | kernel/aic8800-usb/src/aic8800_fdrv/ipc_host.c:226-266 | when the loop ends on accepting answers the ring is empty, and everything that was in it or pushed meanwhile is confirmed in order |
| IpcRing.NeverDone | kernel/aic8800-usb/src/aic8800_fdrv/ipc_host.c:229-263 | a callback that accepts and pushes every time never lets the loop end |
| IpcRing.RefusalRestores | kernel/aic8800-usb/src/aic8800_fdrv/ipc_host.c:252-258 | the rollback after a refusal is right if and only if the callback pushed no more than fitted before; one more is pushed over, the free index is one past a full ring, and the room test passes there |
| IpcRing.AllPushed | kernel/aic8800-usb/src/aic8800_fdrv/ipc_host.c:591-605 | several pushes append in order |
| IpcRing.Pushed | kernel/aic8800-usb/src/aic8800_fdrv/ipc_host.c:594-605 | storing at the masked free index keeps ids non-null exactly on [used, free) modulo 2^32 |
| IpcRing.Popped | kernel/aic8800-usb/src/aic8800_fdrv/ipc_host.c:237-242 | so does clearing the masked used index and advancing it |
| IpcRing.FreeCell | kernel/aic8800-usb/src/aic8800_fdrv/ipc_host.c:568-583 | the two indices tell a full ring, and otherwise the cell at the free index is null |
| IpcRing.PutBack | kernel/aic8800-usb/src/aic8800_fdrv/ipc_host.c:255-256 | and undoing that while the cell is still free |
| IpcRing.MaskedDiff | kernel/aic8800-usb/src/aic8800_fdrv/ipc_host.c:238 | the distance of a cell from the used index is n exactly when it is the cell of used + n |
| IpcRing.MaskedWrap | kernel/aic8800-usb/src/aic8800_fdrv/ipc_host.c:238 | masking does not notice the wrap at 2^32 |
| IpcRing.Mask | kernel/aic8800-usb/src/aic8800_fdrv/ipc_host.c:48-60 | masking with size - 1 is the remainder for the sizes in use |
| IpcRing.EmptyIffEqual | kernel/aic8800-usb/src/aic8800_fdrv/ipc_host.c:283 | equal indices mean an empty ring, never a full one |
| IpcRing.TxFramesPending | kernel/aic8800-usb/src/aic8800_fdrv/ipc_host.c:271-294 | true exactly when some ring's indices differ |
| Nat25.Table.constructor | kernel/aic8800-usb/src/aic8800_fdrv/aic_br_ext.c:600-625 | an empty table: every bucket null, no shortcut |
| Nat25.Table.Find | kernel/aic8800-usb/src/aic8800_fdrv/aic_br_ext.c:484-496 | an entry is found exactly for the addresses of the map, and it records what the map says |
| Nat25.Table.ScdbFindEntry | kernel/aic8800-usb/src/aic8800_fdrv/aic_br_ext.c:1583-1607 | the same for the IPv4 form of an address, with what the map records |
| Nat25.Table.LookupAndReplace | kernel/aic8800-usb/src/aic8800_fdrv/aic_br_ext.c:404-474 | the answer is the recorded MAC unless the entry has expired; a hit raises its use count and nothing else changes |
| Nat25.Table.Insert | kernel/aic8800-usb/src/aic8800_fdrv/aic_br_ext.c:477-512 | a known address is refreshed, a new one recorded with use count 1 if memory is found, and no other |
| Nat25.Table.Enter | kernel/aic8800-usb/src/aic8800_fdrv/aic_br_ext.c:502-509 | a new entry linked into its bucket adds exactly its address |
| Nat25.Table.Link | kernel/aic8800-usb/src/aic8800_fdrv/aic_br_ext.c:371-385 | the entry becomes the head of its chain and every back-pointer names its cell |
| Nat25.Table.Unlink | kernel/aic8800-usb/src/aic8800_fdrv/aic_br_ext.c:388-401 | the chain without the entry, the entry with no links |
| Nat25.OthersStayLinked | kernel/aic8800-usb/src/aic8800_fdrv/aic_br_ext.c:394-398 | taking one entry out of its chain unlinks it and no other |
| Nat25.LinkChain | kernel/aic8800-usb/src/aic8800_fdrv/aic_br_ext.c:378-382 | the cell-level surgery of linking |
| Nat25.UnlinkChain | kernel/aic8800-usb/src/aic8800_fdrv/aic_br_ext.c:394-398 | the cell-level surgery of unlinking through pprev, for head, middle and tail alike |
| Nat25.Bridged | kernel/aic8800-usb/src/aic8800_fdrv/aic_br_ext.c:394-396 | what unlinking leaves in the other entries threads the chain without the entry |
| Nat25.FindChain | kernel/aic8800-usb/src/aic8800_fdrv/aic_br_ext.c:484-496 | the walk over one bucket finds the entry of the address or proves its absence |
| Nat25.Table.Remove | kernel/aic8800-usb/src/aic8800_fdrv/aic_br_ext.c:696-702 | freeing an entry removes exactly its address and clears a shortcut that refers to it |
| Nat25.Table.SweepEntry | kernel/aic8800-usb/src/aic8800_fdrv/aic_br_ext.c:643-704 | one entry of nat25_db_expire: kept as it is before its time, freed at use count 1, counted down otherwise |
| Nat25.Table.ExpireBucket | kernel/aic8800-usb/src/aic8800_fdrv/aic_br_ext.c:636-707 | one bucket of it, walked while entries are unlinked under it |
| Nat25.Table.Expire | kernel/aic8800-usb/src/aic8800_fdrv/aic_br_ext.c:628-712 | a pass over the whole table, in the terms of SweepsEach; the shortcut stays in the table or becomes null |
| Nat25.Table.AllSwept | kernel/aic8800-usb/src/aic8800_fdrv/aic_br_ext.c:635-708 | the buckets together have swept every address once |
| Nat25.Table.Cleanup | kernel/aic8800-usb/src/aic8800_fdrv/aic_br_ext.c:600-625 | everything is freed and the shortcut cleared |
| Nat25.Table.CleanupBucket | kernel/aic8800-usb/src/aic8800_fdrv/aic_br_ext.c:606-621 | one bucket of it |
| Nat25.Table.Emptied | kernel/aic8800-usb/src/aic8800_fdrv/aic_br_ext.c:600-625 | empty chains mean an empty map and no shortcut |
| Nat25.Outlives | kernel/aic8800-usb/src/aic8800_fdrv/aic_br_ext.c:643-644 | an entry that stays expired outlives exactly as many sweeps as it had hits left over |
| Nat25.SurvivesIff | kernel/aic8800-usb/src/aic8800_fdrv/aic_br_ext.c:628-712 | in the table, an entry last refreshed at t is left by passes at any later times if and only if at most as many of them come 300 s or more after t as it has hits left over, and it has then been counted down by each of those |
| Nat25.SweepsEach | kernel/aic8800-usb/src/aic8800_fdrv/aic_br_ext.c:643-704 | a pass leaves every entry alone that has not expired, frees the expired ones with use count 1, counts the other expired ones down, and adds none |
| Nat25.SweepOneMore | kernel/aic8800-usb/src/aic8800_fdrv/aic_br_ext.c:639-707 | sweeping one more address is sweeping the larger set |
| Nat25.Countdown | kernel/aic8800-usb/src/aic8800_fdrv/aic_br_ext.c:644 | atomic_dec_and_test reaches zero exactly at use count 1, and the count stays 1 + hits - passes |
| Nat25.Info.UseCountPositive | kernel/aic8800-usb/src/aic8800_fdrv/aic_br_ext.c:644 | every live entry has use count 1 + hits - passes, which is at least 1 |
| Nat25.ExpiredAfter | kernel/aic8800-usb/src/aic8800_fdrv/aic_br_ext.c:136-153 | on wrapping jiffies an entry is expired exactly from 300 s after its last refresh |
| Nat25.KeysDistinct | kernel/aic8800-usb/src/aic8800_fdrv/aic_br_ext.c:319-368 | entries in the buckets of their hashes never share an address |
| Nat25.Hash | kernel/aic8800-usb/src/aic8800_fdrv/aic_br_ext.c:319-368 | every address has a bucket |
| Nat25.Ipv4Bucket | kernel/aic8800-usb/src/aic8800_fdrv/aic_br_ext.c:319-327 | the bucket of an IPv4 address is the exclusive or of its four bytes, modulo 16 |
| VlanShift.Nat25HandleFrame | kernel/aic8800-usb/src/aic8800_fdrv/aic_br_ext.c:1406-1483 | for unicast frames the shift, lookup and shift back equal removing the tag, looking up and reinserting the same tag; other frames pass untouched |
| VlanShift.ShiftDown | kernel/aic8800-usb/src/aic8800_fdrv/aic_br_ext.c:1434-1436 | the overlapping backward copy leaves exactly the untagged frame |
| VlanShift.ShiftUp | kernel/aic8800-usb/src/aic8800_fdrv/aic_br_ext.c:1469-1473 | the overlapping forward copy and the stores leave exactly the tagged frame |
| VlanShift.LookUpAt | kernel/aic8800-usb/src/aic8800_fdrv/aic_br_ext.c:1439-1466 | the shortcut, the database or neither, on the frame between the shifts |
| VlanShift.TagRestored | kernel/aic8800-usb/src/aic8800_fdrv/aic_br_ext.c:1431-1474 | untagging and tagging again restores every byte |
| VlanShift.TagIsTransparent | kernel/aic8800-usb/src/aic8800_fdrv/aic_br_ext.c:1427-1479 | a tagged frame gets the verdict and the changes of the frame inside and keeps its tag, a second tag inside or not; without one the frame inside would get the same on its own |
| VlanShift.UnchangedByIdentity | kernel/aic8800-usb/src/aic8800_fdrv/aic_br_ext.c:1427-1479 | with a lookup that changes nothing every byte of a frame is restored, if and only if the shortcut does not write another address over its own |
| VlanShift.LookupDecides | kernel/aic8800-usb/src/aic8800_fdrv/aic_br_ext.c:1439-1480 | of a unicast frame without its tag: with NAT2.5 on the lookup gives the frame and the verdict, unless it is IPv4 to the cached address, when exactly the first six bytes are replaced; with it off the lookup does so exactly for IPv4 and ARP frames to the address of the bridge, and others pass |
| DhcpChecksum.DhcpFlagBcast | kernel/aic8800-usb/src/aic8800_fdrv/aic_br_ext.c:1538-1580 | the frame changes exactly for a DHCP request without the flag, and the bytes left are the same on hosts of either byte order |
| DhcpChecksum.BroadcastVerifies | kernel/aic8800-usb/src/aic8800_fdrv/aic_br_ext.c:1559-1572 | for a datagram of any length whose checksum verifies, the updated one verifies if and only if the flags word was zero |
| DhcpChecksum.BroadcastToZero | kernel/aic8800-usb/src/aic8800_fdrv/aic_br_ext.c:1568-1572 | with zero flags the new checksum field is zero, which means none, exactly if it was 0x8000 |
| DhcpChecksum.ZeroCheckIsUpdated | kernel/aic8800-usb/src/aic8800_fdrv/aic_br_ext.c:1568-1572 | a zero checksum is updated too, and then verifies exactly when the sum was by chance congruent to the flags |
| DhcpChecksum.SumChange | kernel/aic8800-usb/src/aic8800_fdrv/aic_br_ext.c:1568-1572 | the total sum changes by minus the old flags, modulo 65535 |
| DhcpChecksum.FoldLoop | kernel/aic8800-usb/src/aic8800_fdrv/aic_br_ext.c:1570-1571 | the fold loop terminates with the folded sum |
| DhcpChecksum.FoldIs | kernel/aic8800-usb/src/aic8800_fdrv/aic_br_ext.c:1570-1571 | folding keeps the remainder modulo 65535 and never reaches zero from anything else |
| DhcpChecksum.ByteOrder | kernel/aic8800-usb/src/aic8800_fdrv/aic_br_ext.c:1566-1572 | the update commutes with swapping bytes |
| DhcpChecksum.SetFlag | kernel/aic8800-usb/src/aic8800_fdrv/aic_br_ext.c:1566-1572 | the in-place stores equal the update in network order |
| DhcpChecksum.RequestMeans | kernel/aic8800-usb/src/aic8800_fdrv/aic_br_ext.c:1544-1560 | the frames that get the flag, byte by byte: IPv4, UDP from port 68 to 67, the DHCP cookie, and the top bit of the flags clear |
| DhcpChecksum.BroadcastMeans | kernel/aic8800-usb/src/aic8800_fdrv/aic_br_ext.c:1566-1572 | that bit is set, and beside the checksum no other byte changes |
| DhcpChecksum.SumUpdate | kernel/aic8800-usb/src/aic8800_fdrv/aic_br_ext.c:1566-1572 | replacing an aligned word changes the sum by the difference, for even and odd lengths |
| FipFormat.RoundTrip | boot/uboot-sophgo-vendor/fiptool.py:289-365 | reading a built image into a fresh FIP recovers every field and every body if and only if there is a DDR_PARAM; making it again then yields identical bytes |
| FipFormat.SealTwice | boot/uboot-sophgo-vendor/fiptool.py:546-656 | make is a fixpoint on what it built, whether or not LOADER_2ND was compressed the first time |
| FipFormat.SealConsistent | boot/uboot-sophgo-vendor/fiptool.py:412-656 | whatever it is given, the package make builds has checksums, addresses and sizes that describe its bodies |
| FipFormat.SealStands | boot/uboot-sophgo-vendor/fiptool.py:412-656 | a consistent package is built again exactly as it is |
| FipFormat.ReadImage | boot/uboot-sophgo-vendor/fiptool.py:289-365 | an image of a consistent package gives back every entry and body |
| FipFormat.StoredChecksums | boot/uboot-sophgo-vendor/fiptool.py:412-433 | each stored checksum is image_crc of the bytes its entries point at: both parameter blocks, BLCP, BL2, DDR_PARAM, BLCP_2ND, MONITOR and the header of LOADER_2ND |
| FipFormat.SecondStored | boot/uboot-sophgo-vendor/fiptool.py:646-654 | the one of PARAM2, over the block behind its own field |
| FipFormat.LoaderStored | boot/uboot-sophgo-vendor/fiptool.py:550-566 | the one in the loader header, over the loader behind its own field |
| FipFormat.PartAt | boot/uboot-sophgo-vendor/fiptool.py:435-453 | the parts lie at their addresses, in order and disjoint, inside the image |
| FipFormat.StartsAligned | boot/uboot-sophgo-vendor/fiptool.py:493-608 | every address is 512-aligned |
| FipFormat.ReadsHeaderAsParam2 | boot/uboot-sophgo-vendor/fiptool.py:328-333 | without DDR_PARAM the reader takes PARAM1 for PARAM2 |
| FipFormat.Sealed1Consistent | boot/uboot-sophgo-vendor/fiptool.py:412-456 | the first block describes its bodies |
| FipFormat.Sealed2Consistent | boot/uboot-sophgo-vendor/fiptool.py:493-654 | so does the second |
| FipFormat.LinkedDescribes | boot/uboot-sophgo-vendor/fiptool.py:493-544 | each packed body's checksum, address, size and run address are recorded |
| FipFormat.SealLoaderOk | boot/uboot-sophgo-vendor/fiptool.py:550-593 | the loader header that is left has the size and checksum of the loader it heads |
| FipFormat.SealLoaderStands | boot/uboot-sophgo-vendor/fiptool.py:550-593 | a loader in order is left alone, compressed or not |
| FipFormat.SealHeaderOk | boot/uboot-sophgo-vendor/fiptool.py:550-566 | the header checksum covers what follows its field, the new size included |
| FipFormat.CksumOutside | boot/uboot-sophgo-vendor/fiptool.py:412-419 | the bytes a checksum covers never include the checksum |
| FipFormat.CheckedTwice | boot/uboot-sophgo-vendor/fiptool.py:610-615 | updating a checksum in between makes no difference once it is updated again |
| FipFormat.MadeFirst | boot/uboot-sophgo-vendor/fiptool.py:421-456 | building the first block beforehand changes neither whether nor what make builds |
| FipFormat.BuildableIs | boot/uboot-sophgo-vendor/fiptool.py:617-656 | what can still fail once the bodies are in |
| FipImage.MadeHolds | boot/uboot-sophgo-vendor/fiptool.py:421-668 | of the bytes make writes, whatever it is given: from the front of the image, the first block leads to BLCP, BL2 and the second block, and that to DDR_PARAM, BLCP_2ND, MONITOR and LOADER_2ND, each the bytes it was given and fewer than 512 zeros; every checksum is the CRC of the bytes it covers below 0xCAFE; a recorded run address stays, otherwise it is the argument; every other entry is as it was |
| FipImage.LoaderSealed | boot/uboot-sophgo-vendor/fiptool.py:550-593 | an original loader made with lzma has the lzma magic and the lzma stream of its body behind its header, with lz4 the lz4 ones; without an algorithm or compressed before it keeps magic and body; only zeros follow, and the other header fields are those given |
| FipImage.WholeHeaderIff | boot/uboot-sophgo-vendor/fiptool.py:568-593 | no compressor loses a byte behind the header if and only if the loader given has a whole header of 32 bytes |
| FipImage.ShortHeaderLoses | boot/uboot-sophgo-vendor/fiptool.py:550-593 | of a shorter one, which add_loader_2nd takes from 8 bytes on, the front of the stream is overwritten |
| FipImage.ImageCrcIs | boot/uboot-sophgo-vendor/fiptool.py:262-265 | read as a little-endian number a checksum entry is 0xCAFE0000 plus the CRC |
| FipImage.FirstHolds | boot/uboot-sophgo-vendor/fiptool.py:421-456 | the first block and its bodies |
| FipImage.SecondHolds | boot/uboot-sophgo-vendor/fiptool.py:617-656 | the second block, at the address in the first, and its bodies |
| FipImage.LinkedEntries | boot/uboot-sophgo-vendor/fiptool.py:493-544 | the entries of each packed body, and which run address wins |
| FipImage.BodyHolds | boot/uboot-sophgo-vendor/fiptool.py:267-275 | a padded body is the body and zeros up to a multiple of 512 |
| FipImage.SealHeaderBody | boot/uboot-sophgo-vendor/fiptool.py:550-566 | updating the header leaves the body behind it alone |
| FipImage.MakeableIff | boot/uboot-sophgo-vendor/fiptool.py:421-668 | make succeeds if and only if BLCP and BL2 are aligned, every address and padded length has 32 bits, every run address that is needed is recorded or given, and the loader has a known magic and a supported algorithm |
| FipImage.SealableIff | boot/uboot-sophgo-vendor/fiptool.py:550-593 | the part of it that is about the loader |
| FipImage.ReadTakes | boot/uboot-sophgo-vendor/fiptool.py:289-365 | of any image: refused exactly on another magic, fewer than 220 bytes or a loader of unknown magic; otherwise every body is the bytes its entries lead to, as far as there are any, and one without length or address stays what it was |
| FipImage.FirstTakes | boot/uboot-sophgo-vendor/fiptool.py:302-326 | the bodies behind the first block |
| FipImage.SecondTakes | boot/uboot-sophgo-vendor/fiptool.py:328-350 | those the second block leads to |
| FipImage.LoaderTakes | boot/uboot-sophgo-vendor/fiptool.py:352-365 | the loader, by its own header |
| Fields.ParseJoin | boot/uboot-sophgo-vendor/fiptool.py:302-333 | parsing inverts joining fields, whatever follows |
| Fields.JoinParse | boot/uboot-sophgo-vendor/fiptool.py:302-333 | joining inverts parsing |
| Fields.JoinUpdate | boot/uboot-sophgo-vendor/fiptool.py:610-615 | storing a field overwrites its bytes and no others |
| Fields.JoinSlice | boot/uboot-sophgo-vendor/fiptool.py:238-256 | each field sits at the address _gen_param gives it |
| FipTool.Fip.constructor | boot/uboot-sophgo-vendor/fiptool.py:143-260 | a fresh FIP |
| FipTool.Fip.AddBlcp | boot/uboot-sophgo-vendor/fiptool.py:378-387 | the padded body and its run address |
| FipTool.Fip.AddBl2 | boot/uboot-sophgo-vendor/fiptool.py:389-402 | the fill bytes and the padding |
| FipTool.Fip.AddLoader2nd | boot/uboot-sophgo-vendor/fiptool.py:479-491 | exactly images with the original magic are taken |
| FipTool.Fip.MakeFip1 | boot/uboot-sophgo-vendor/fiptool.py:421-456 | fails exactly on an unaligned or overlong body, and otherwise yields the first block with its bodies |
| FipTool.Fip.UpdateParam1Cksum | boot/uboot-sophgo-vendor/fiptool.py:412-419 | the checksum is stored in the entry and in the bytes |
| FipTool.Fip.InsertParam1 | boot/uboot-sophgo-vendor/fiptool.py:610-615 | a field and then the checksum, in the entries and in the bytes |
| FipTool.Fip.PackDdrParam | boot/uboot-sophgo-vendor/fiptool.py:493-506 | bytes appended and entries recorded |
| FipTool.Fip.PackBlcp2nd | boot/uboot-sophgo-vendor/fiptool.py:508-525 | the same with the run address |
| FipTool.Fip.PackMonitor | boot/uboot-sophgo-vendor/fiptool.py:527-544 | the same for the monitor |
| FipTool.Fip.CompressLdr2nd | boot/uboot-sophgo-vendor/fiptool.py:568-593 | the loader is compressed exactly when its magic is the original one and an algorithm was asked for; fails on an unknown magic or algorithm |
| FipTool.Fip.UpdateLdr2ndHdr | boot/uboot-sophgo-vendor/fiptool.py:550-566 | size and checksum of the header are brought up to date |
| FipTool.Fip.PackLoader2nd | boot/uboot-sophgo-vendor/fiptool.py:595-608 | the sealed loader at its recorded address; its magic names what its body went through (FipImage.LoaderWritten) |
| FipTool.Fip.PackBodies | boot/uboot-sophgo-vendor/fiptool.py:629-641 | the three bodies in order; fails exactly when an address, length or run address does not fit or is missing |
| FipTool.Fip.PackBlcp2ndIfAny | boot/uboot-sophgo-vendor/fiptool.py:631-635 | a run address already recorded wins over the argument |
| FipTool.Fip.PackMonitorIfAny | boot/uboot-sophgo-vendor/fiptool.py:637-641 | the same for the monitor |
| FipTool.Fip.PackLoaderIfAny | boot/uboot-sophgo-vendor/fiptool.py:643-644 | the loader, if there is one |
| FipTool.Fip.AppendBodies | boot/uboot-sophgo-vendor/fiptool.py:617-641 | the link to the second block, room for it, and the bodies |
| FipTool.Fip.AppendPacked | boot/uboot-sophgo-vendor/fiptool.py:617-644 | all of it but the second block's bytes |
| FipTool.Fip.FinishParam2 | boot/uboot-sophgo-vendor/fiptool.py:646-654 | the second block and its checksum go where room was left |
| FipTool.Fip.FinishFip2 | boot/uboot-sophgo-vendor/fiptool.py:646-656 | with that the image is the one specified |
| FipTool.Fip.AppendFip2 | boot/uboot-sophgo-vendor/fiptool.py:617-656 | succeeds exactly when the package is buildable, with the image specified |
| FipTool.Fip.Make | boot/uboot-sophgo-vendor/fiptool.py:658-668 | succeeds exactly when the package is makeable; the image is the one specified, and its bytes are those of FipImage.MadeHolds |
| FipTool.Fip.ReadParam1 | boot/uboot-sophgo-vendor/fiptool.py:302-303 | every field, by its address |
| FipTool.Fip.ReadParam2 | boot/uboot-sophgo-vendor/fiptool.py:332-333 | the same for the second block |
| FipTool.Fip.ReadFip | boot/uboot-sophgo-vendor/fiptool.py:289-326 | refuses and recovers what Read specifies |
| FipTool.Fip.ReadFip2 | boot/uboot-sophgo-vendor/fiptool.py:328-350 | bodies by recorded address and size, clipped as Python slices are |
| FipTool.Fip.ReadLoader2nd | boot/uboot-sophgo-vendor/fiptool.py:352-365 | the loader by the size in its own header, refused on an unknown magic |
| FipTool.Rebuild | boot/uboot-sophgo-vendor/fiptool.py:684-690 | build, read into a new object, build again: the two images are equal |
| UsbReassembly.PacketsArrive | kernel/aic8800-usb/src/aic8800_fdrv/aicwf_usb.c:421-544 | any sequence of well-formed packets cut into 2048-byte pieces, the long ones with memory for their first piece, is queued byte for byte and in order, but for those the queue had no room for |
| UsbReassembly.PacketsArriveIff | kernel/aic8800-usb/src/aic8800_fdrv/aicwf_usb.c:421-544 | when the queue has room for everything, the packets arrive if and only if every packet longer than one transfer gets its memory |
| UsbReassembly.PacketArrives | kernel/aic8800-usb/src/aic8800_fdrv/aicwf_usb.c:421-544 | the same for one packet |
| UsbReassembly.RestArrives | kernel/aic8800-usb/src/aic8800_fdrv/aicwf_usb.c:423-456 | a pending packet is completed by the pieces of its rest |
| UsbReassembly.DeliveredWellFormed | kernel/aic8800-usb/src/aic8800_fdrv/aicwf_usb.c:421-544 | for any stream of transfers, every packet delivered has the length its header implies |
| UsbReassembly.StepSound | kernel/aic8800-usb/src/aic8800_fdrv/aicwf_usb.c:423-544 | each transfer keeps that, and that what is pending is whole pieces with a byte missing |
| UsbReassembly.ImpliedLong | kernel/aic8800-usb/src/aic8800_fdrv/aicwf_usb.c:475-476 | no packet is as short as its type byte, so stale bytes of a short transfer never matter |
| UsbReassembly.WellFormedMeans | kernel/aic8800-usb/src/aic8800_fdrv/aicwf_usb.c:473-537 | which bytes are a packet, for every type: a response of n + 4 bytes rounded up to a multiple of 4, a confirmation of 12 bytes with n = 8, n + 60 bytes with bit 4 of the type clear on the data endpoint; nothing else |
| UsbReassembly.OneTransfer | kernel/aic8800-usb/src/aic8800_fdrv/aicwf_usb.c:473-553 | with nothing pending a transfer is delivered at once exactly if it is such a packet and the queue has room |
| UsbReassembly.LostIsMissing | kernel/aic8800-usb/src/aic8800_fdrv/aicwf_usb.c:490-496 | a first piece without memory is gone for good: what is left is too short for what was sent |
| UsbReassembly.RunBytes | kernel/aic8800-usb/src/aic8800_fdrv/aicwf_usb.c:421-544 | no more bytes are ever delivered or kept than were received |
| UsbReassembly.AllocFailureMisreads | kernel/aic8800-usb/src/aic8800_fdrv/aicwf_usb.c:490-496 | an input on which what is left is read as a packet: 60 zero bytes of payload are delivered as one |
| UsbReassembly.RxPriv.constructor | kernel/aic8800-usb/src/aic8800_fdrv/aicwf_usb.c:421-427 | nothing pending |
| UsbReassembly.RxPriv.RxComplete | kernel/aic8800-usb/src/aic8800_fdrv/aicwf_usb.c:423-544 | the fields and the buffer after a transfer are those of Step; mid-packet cur_len is cur_frags * 2048, cur_frags < total_frags, and no copy exceeds the buffer |
| UsbReassembly.RxPriv.Check | kernel/aic8800-usb/src/aic8800_fdrv/aicwf_usb.c:473-543 | a transfer that continues nothing starts a packet, is one, or is dropped |
| UsbReassembly.RxPriv.Start | kernel/aic8800-usb/src/aic8800_fdrv/aicwf_usb.c:479-496 | the buffer and the counters after the first piece |
| UsbReassembly.RxPriv.Reset | kernel/aic8800-usb/src/aic8800_fdrv/aicwf_usb.c:447-466 | nothing is pending afterwards and the queue is as before |
| TxPool.AlwaysPartitioned | kernel/aic8800-usb/src/aic8800_fdrv/aicwf_usb.c:75-104 | over every interleaving each buffer is in exactly one of free list, post list, in hand or in flight, and the counters are the list lengths; unless a step of the run is the breaking one, which needs a refused submission, stopped queues have few buffers free or a completion check to come |
| TxPool.QuietIsAwake | kernel/aic8800-usb/src/aic8800_fdrv/aicwf_usb.c:214-259 | when everything sent has completed, all 200 buffers are free and, unless a step of the run broke it, the queues are awake |
| TxPool.StepWakesUp | kernel/aic8800-usb/src/aic8800_fdrv/aicwf_usb.c:1170-1219 | the wake-up survives a step if and only if it is not a refused submission that frees the 151st buffer with no check pending |
| TxPool.FlowControlIff | kernel/aic8800-usb/src/aic8800_fdrv/aicwf_usb.c:1170-1219 | the queues stop exactly at a check that finds fewer than 50 buffers free and wake exactly at one that finds more than 150 |
| TxPool.ChecksCounted | kernel/aic8800-usb/src/aic8800_fdrv/aicwf_usb.c:214-258 | over every interleaving, each send looks at the low watermark once and each completion at the high one; what is pending is exactly the looks not yet made |
| TxPool.SubmittedInOrder | kernel/aic8800-usb/src/aic8800_fdrv/aicwf_usb.c:1184-1219 | over every interleaving with one transmit thread, frames are submitted in the order in which they were posted, none skipped |
| TxPool.RunIsFifo | kernel/aic8800-usb/src/aic8800_fdrv/aicwf_usb.c:1184-1219 | what was queued and posted is what was submitted, in hand or is queued, in order, from any state on |
| TxPool.RefusalsLoseWakeUp | kernel/aic8800-usb/src/aic8800_fdrv/aicwf_usb.c:1198-1219 | a run of 151 frames with refused submissions ends with everything free and the queues stopped for good |
| TxPool.StepPlaces | kernel/aic8800-usb/src/aic8800_fdrv/aicwf_usb.c:75-104 | no step puts a buffer in two places or in none |
| TxPool.StepPartitioned | kernel/aic8800-usb/src/aic8800_fdrv/aicwf_usb.c:75-104 | each step keeps the partition and the counters |
| TxPool.InitialPartitioned | kernel/aic8800-usb/src/aic8800_fdrv/aicwf_usb.c:214-259 | they hold at first |
| TxPool.QuietIsFree | kernel/aic8800-usb/src/aic8800_fdrv/aicwf_usb.c:214-259 | a partition with nothing under way has all buffers free |
| TxPool.UsbDev.constructor | kernel/aic8800-usb/src/aic8800_fdrv/aicwf_usb.c:75-104 | all buffers free |
| TxPool.UsbDev.TxdataTake | kernel/aic8800-usb/src/aic8800_fdrv/aicwf_usb.c:1749-1757 | the first free buffer, or none |
| TxPool.UsbDev.TxdataPost | kernel/aic8800-usb/src/aic8800_fdrv/aicwf_usb.c:1870-1871 | onto the post list |
| TxPool.UsbDev.TxdataFlowCtrl | kernel/aic8800-usb/src/aic8800_fdrv/aicwf_usb.c:1881-1889 | stops the queues below the low watermark |
| TxPool.UsbDev.TxProcessOne | kernel/aic8800-usb/src/aic8800_fdrv/aicwf_usb.c:1184-1219 | from the post list into flight, or back onto the free list when refused |
| TxPool.UsbDev.TxCompleteReturn | kernel/aic8800-usb/src/aic8800_fdrv/aicwf_usb.c:248-249 | from flight back onto the free list |
| TxPool.UsbDev.TxCompleteFlowCtrl | kernel/aic8800-usb/src/aic8800_fdrv/aicwf_usb.c:251-258 | wakes stopped queues above the high watermark |
| FrameQueue.EnqueueInserts | kernel/aic8800-usb/src/aic8800_fdrv/aicwf_txrxif.c:1261-1291 | in order of service, a frame goes behind those of its own and higher priorities and before all others; on a full queue nothing changes, or the last frame, of strictly lower priority, is replaced in place |
| FrameQueue.DequeueTakesHead | kernel/aic8800-usb/src/aic8800_fdrv/aicwf_txrxif.c:1226-1245 | dequeue takes the head of the order, and nothing only when the queue is empty |
| FrameQueue.OrderAt | kernel/aic8800-usb/src/aic8800_fdrv/aicwf_txrxif.c:1150-1164 | the order around one priority |
| FrameQueue.StepConserves | kernel/aic8800-usb/src/aic8800_fdrv/aicwf_txrxif.c:1150-1291 | no operation loses a frame or serves it twice |
| FrameQueue.Run | kernel/aic8800-usb/src/aic8800_fdrv/aicwf_txrxif.c:1150-1291 | over every run, what holds of the ledger and the queue at first holds at the end |
| FrameQueue.EveryFrame | kernel/aic8800-usb/src/aic8800_fdrv/aicwf_txrxif.c:1150-1291 | over every run from an empty queue, a frame is refused, evicted, served, flushed or still queued as often as it was offered, and the queue stays within qmax |
| FrameQueue.RunBounded | kernel/aic8800-usb/src/aic8800_fdrv/aicwf_txrxif.c:1150-1291 | over every run the queue stays within qmax |
| FrameQueue.EnqConserves | kernel/aic8800-usb/src/aic8800_fdrv/aicwf_txrxif.c:1261-1291 | of the new frame and the queued ones, each is afterwards queued, refused or evicted |
| FrameQueue.LongQueue | kernel/aic8800-usb/src/aic8800_fdrv/aicwf_txrxif.c:1269-1271 | a priority as long as the whole queue may be leaves nothing below it, so the early refusal is the general one |
| FrameQueue.Enqueue | kernel/aic8800-usb/src/aic8800_fdrv/aicwf_txrxif.c:1261-1291 | the number of priorities stays |
| FrameQueue.Queue.constructor | kernel/aic8800-usb/src/aic8800_fdrv/aicwf_txrxif.c:1183-1193 | an empty queue |
| FrameQueue.Queue.Penq | kernel/aic8800-usb/src/aic8800_fdrv/aicwf_txrxif.c:1150-1164 | the frame at the tail of its priority if that is not full, and nothing otherwise; qcnt stays the sum and the queues above hi_prio empty |
| FrameQueue.Queue.PeekTail | kernel/aic8800-usb/src/aic8800_fdrv/aicwf_txrxif.c:1196-1211 | the newest frame of the lowest non-empty priority |
| FrameQueue.Queue.IsEmpty | kernel/aic8800-usb/src/aic8800_fdrv/aicwf_txrxif.c:1213-1224 | true exactly when the order is empty |
| FrameQueue.Queue.FrameDequeue | kernel/aic8800-usb/src/aic8800_fdrv/aicwf_txrxif.c:1226-1245 | the loop that lowers hi_prio finds the highest non-empty priority |
| FrameQueue.Queue.DequeueTail | kernel/aic8800-usb/src/aic8800_fdrv/aicwf_txrxif.c:1248-1259 | the newest frame of one priority, or nothing when it is empty |
| FrameQueue.Queue.FrameEnq | kernel/aic8800-usb/src/aic8800_fdrv/aicwf_txrxif.c:1261-1291 | the whole call, with the frame it evicts |
| FrameQueue.Queue.FrameFlush | kernel/aic8800-usb/src/aic8800_fdrv/aicwf_txrxif.c:1166-1181 | all queues empty and qcnt zero; hi_prio stays valid |
| Deaggregate.SplitInverts | kernel/aic8800-usb/src/aic8800_fdrv/aicwf_txrxif.c:741-805 | every packet of a concatenation is delivered once and in order and the loop ends, for any set of failing allocations and any end of the buffer |
| Deaggregate.ExpectedAll | kernel/aic8800-usb/src/aic8800_fdrv/aicwf_txrxif.c:741-805 | with all allocations that is every packet, messages without their padding |
| Deaggregate.EndsIffWhole | kernel/aic8800-usb/src/aic8800_fdrv/aicwf_txrxif.c:741-805 | the loop ends if and only if the buffer is a concatenation of whole packets with an end; otherwise skb_pull never moves again |
| Deaggregate.DoneIsWhole | kernel/aic8800-usb/src/aic8800_fdrv/aicwf_txrxif.c:741-805 | a buffer on which the loop ends falls apart into whole packets |
| Deaggregate.CutShortIsStuck | kernel/aic8800-usb/src/aic8800_fdrv/aicwf_txrxif.c:751-777 | a data packet cut short by up to 60 bytes passes the length test and is delivered for ever |
| Deaggregate.OnePacket | kernel/aic8800-usb/src/aic8800_fdrv/aicwf_txrxif.c:741-801 | one well-formed packet is recognised, delivered and pulled whole |
| Deaggregate.WellFormedMeans | kernel/aic8800-usb/src/aic8800_fdrv/aicwf_txrxif.c:741-797 | which bytes are a packet and what of it is delivered: n + 60 bytes whole if bit 4 of the type is clear, otherwise n + 4 bytes without the padding to a multiple of 4 |
| Deaggregate.TakeOne | kernel/aic8800-usb/src/aic8800_fdrv/aicwf_txrxif.c:748-801 | what one turn delivers and how far it pulls |
| Deaggregate.RxFrames | kernel/aic8800-usb/src/aic8800_fdrv/aicwf_txrxif.c:725-806 | the loop itself does what Split specifies |
| Steering.BlockedUntil | kernel/aic8800-usb/src/aic8800_fdrv/aicwf_steering.c:38-66 | an address neither refreshed nor deleted is blocked for exactly the passes it had, whatever is done to others and whatever roaming adds: there before the last pass, gone right after it |
| Steering.BlockLasts | kernel/aic8800-usb/src/aic8800_fdrv/aicwf_steering.c:89-132 | a block, new or refreshed, lasts for exactly 60 passes, and without an entry to spare nothing happens; no other address is touched |
| Steering.RoamLasts | kernel/aic8800-usb/src/aic8800_fdrv/aicwf_steering.c:156-195 | a roam block of an address that was not blocked lasts for exactly 5 |
| Steering.RoamKeeps | kernel/aic8800-usb/src/aic8800_fdrv/aicwf_steering.c:156-195 | of one that was, or with 64 blocked, it changes nothing |
| Steering.DeletedIsOut | kernel/aic8800-usb/src/aic8800_fdrv/aicwf_steering.c:134-154 | a deleted address stays out until it is added again, and no other is touched |
| Steering.BlockList.Init | kernel/aic8800-usb/src/aic8800_fdrv/aicwf_steering.c:197-214 | an empty map |
| Steering.BlockList.Lookup | kernel/aic8800-usb/src/aic8800_fdrv/aicwf_steering.c:22-36 | the first used entry of the address |
| Steering.BlockList.BlockChk | kernel/aic8800-usb/src/aic8800_fdrv/aicwf_steering.c:68-87 | whether the address is in the map |
| Steering.BlockList.BlockEntryAdd | kernel/aic8800-usb/src/aic8800_fdrv/aicwf_steering.c:89-132 | refreshes to 60 or adds with 60 unless 64 are in use |
| Steering.BlockList.RoamBlockEntryAdd | kernel/aic8800-usb/src/aic8800_fdrv/aicwf_steering.c:156-195 | adds with 5 unless the address is there or 64 are in use |
| Steering.BlockList.BlockEntryDel | kernel/aic8800-usb/src/aic8800_fdrv/aicwf_steering.c:134-154 | removes exactly the address |
| Steering.BlockList.ExpirePass | kernel/aic8800-usb/src/aic8800_fdrv/aicwf_steering.c:38-66 | every address has one pass less, and those with none left are gone |
| Steering.BlockList.FindEmpty | kernel/aic8800-usb/src/aic8800_fdrv/aicwf_steering.c:112-118 | an unused entry exactly when fewer than 64 addresses are blocked |
| Steering.BlockList.Bounded | kernel/aic8800-usb/src/aic8800_fdrv/aicwf_steering.c:22-195 | at most 64 addresses, each with a pass left |
| Steering.SetEntry | kernel/aic8800-usb/src/aic8800_fdrv/aicwf_steering.c:120-126 | writing an unused or matching entry adds its address to the map |
| Steering.ClearEntry | kernel/aic8800-usb/src/aic8800_fdrv/aicwf_steering.c:147-149 | clearing one removes its address |
| Steering.TickedMap | kernel/aic8800-usb/src/aic8800_fdrv/aicwf_steering.c:51-61 | counting all entries down is one pass over the map |
| Steering.MapFinds | kernel/aic8800-usb/src/aic8800_fdrv/aicwf_steering.c:22-36 | the map and the search agree |
| Steering.MapSize | kernel/aic8800-usb/src/aic8800_fdrv/aicwf_steering.c:112-118 | the map has an entry for each used one |

## Left out

- Md5.DigestOfChunks: takes chunks whose lengths satisfy BlockLoopFits, because for the others the block loop of MD5Update does not end; Md5.BlockLoopEndsIff gives the condition exactly.
- Locks, seqlocks, interrupts and memory barriers: a locked region is one atomic step. In TcpAck and IpcRing whole calls are atomic; in TxPool the bookkeeping and the watermark check are separate steps.
- Kernel allocation is a success flag of the environment; skbs are identities or byte sequences; URBs and timers are steps that the environment enables at any time.
- tcp_check_ack and tcp_check_quick_ack: the frame parser and its TCP option walker come in as their result, a flow, a number and a window scale; the walker does not end on every option list. MAX_TCP_ACK is part of that result.
- tcp_ack_handle: not called by filter_send_tcp_ack, whose window-size test only sets an argument that tcp_ack_handle_new ignores.
- TCP ACK timer: whether it is pending is not modelled, so the timer may fire on any slot at any time; the drop counter is unbounded.
- IpcRing.TxRing.CfmHandler: takes the answers of the callback up to the end of the loop; for which callbacks there is an end is IpcRing.LoopEndsIff. A refusal that pushes over the id it refuses is left to IpcRing.RefusalRestores. The ready word of a descriptor, the interrupt trigger and the other handlers of ipc_host.c are not part of the model.
- NAT2.5: the protocol parsers of nat25_db_handle, PPPoE relay tags and the multicast-to-unicast code; the lookup of VlanShift is a function that keeps the length of the frame.
- FIP: argument parsing, logging, file I/O, add_nor_info, add_nand_info, add_chip_conf and rest_fip; the CRC and the compressors are uninterpreted functions; one FIP object in a fresh process, since the field tables are class attributes.
- UsbReassembly: the 12288-byte packet size, for which ALIGN with a size that is no power of two is no ceiling; the aggregated mode and PREALLOC variants, which queue a transfer as it is. Both endpoints share one model, with the types each accepts.
- TxPool: CONFIG_USB_TX_AGGR, per-station flow control, bus-down periods and the frame header written into a buffer.
- FrameQueue: the 16-bit width of qcnt, which stays at most qmax.
- Deaggregate: bytes that memcpy reads past the end of the skb are not given a value; what is dispatched by message type is one delivery.
- Deaggregate.EndsIffWhole: for buffers of at most 65475 bytes, on which the 16-bit aggr_len cannot wrap; the driver's aggregated transfers are at most 20480 bytes.
- Steering: the log output and the list's lock.
- aic_priv_cmd.c, aic_vendor.c, aicwf_compat_*, aicwf_manager.c, SDIO variants, suspend, probe and disconnect: command dispatch and plumbing.
