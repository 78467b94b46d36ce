# A verified model of an lwIP-based network stack

The system is a TCP/IP stack in the style of lwIP 1.4 on uC/OS-II, with its own heap and a
small DHCP server.  This project models the parts of it that keep state over many calls and
proves what they are for.  `dafny verify dfyconfig.toml` checks everything.

| file | what it models | main results |
|---|---|---|
| `TcpReceive.dfy` | segment acceptance, refused data, FIN delivery and the receive window (sections 3.9 of RFC 793 and 4.2.2.16 of RFC 1122) | the application gets exactly the peer's stream; the window is conserved; the announced edge never moves left |
| `Netconn.dfy` | pending operations of a TCP netconn | every message acknowledged once; an unacknowledged one is the current message; chunked writes lose and repeat nothing |
| `Select.dfy` | select() and the event callback as interleaved atomic steps; the hand-over of events at accept() | no lost wake-up, no use of a waiter that has left, events counted once |
| `BlockList.dfy` | the block list both heaps stand for | tiling, coalescing, confluence of frees |
| `OsDmem.dfy`, `LwipMem.dfy` | the next-fit circular heap and the first-fit heap with a lowest-free cache, on headers in memory | the header operations refine the block list; allocation fails only when nothing fits |
| `Memp.dfy` | fixed pools and the cycle check | the pools partition memory; the check is exact |
| `PbufRefs.dfy`, `PbufBytes.dfy` | packet buffers: reference counts and links; bytes and totals | counts equal pointers; chains agree with flat packets |
| `DhcpServer.dfy` | the lease table (section 4.3 of RFC 2131) | isolation and exclusivity over every run |
| `Timers.dfy` | the relative timeout list and its fetch loop | it refines a schedule of absolute deadlines; handlers fire on time |
| `Rto.dfy` | the round-trip estimator (section 2 of RFC 6298) | bounds over every run of measurements |

Code that updates fields in place is modelled by classes; each method's new state is tied to a
function on values, and the properties are proved of that function.  A class's `Valid()` is the
invariant every method keeps, so it holds after every sequence of calls.  Ghost fields
(`h`, `log`, `wire`, `blocks`, `held`, `s`) record what has happened and are the terms the
contracts speak about.

What the application, the memory pools, the mailbox and the network decide enters as a
parameter: the answer of a receive callback, whether `tcp_write` or `tcp_close` finds memory,
the wait a mailbox reports, the addresses of new buffers, which stations are associated.
Messages sent are returned as values.

Where code and promise part, the code is modelled and the exact condition is proved:

- Data the application still refuses is thrown away when CLOSING becomes TIME_WAIT
  (`TcpReceive.Pcb.Input`, and `TcpReceive.LosingRun` for a run): the purge on that path drops it.
- Data refused together with a FIN that leads to TIME_WAIT is kept there but never offered
  again (`TcpReceive.StrandedRun`).
- `pbuf_dechain` returns a dangling pointer exactly when a positive multiple of 256 buffers was
  freed, because `pbuf_free` counts in eight bits (`PbufRefs.Store.Dechain`,
  `PbufRefs.DanglingRun`).
- A blocking netconn write that is switched to non-blocking part of the way can end with an
  error and leave `write_offset` set, and then the next operation's `already writing` assertion
  fails (`Netconn.Conn.DoWrite`, `Netconn.TrippingRun`); it never fails otherwise.
- Data left over from an earlier read makes a socket ready for the scan of select() but raises
  no event, so a thread already blocked sleeps on (`Select.LeftoverUnnoticed`); it sleeps through
  nothing else that its scan would find (`Select.OnlyLeftovers`).
- The eight DHCP addresses coincide when the pool reaches the end of the subnet
  (`DhcpServer.PoolDistinct`).
- The comment on `event_callback` says that only receive events can come before accept() has
  made a socket; an event of another kind that does come then is recorded if and only if its
  callback looks again after the hand-over (`Select.RecordedIffLate`), and is lost otherwise
  (`Select.ErrorDropped`).
- A memory pool too small for its two headers is created all the same, and its byte count wraps
  round (`OsDmem.Pool.Create`).

Fixed values are those of the shipped configuration: `TCP_WND` 2920, no out-of-order queue,
eight DHCP clients, a DHCP offer of ten ticks.

## Model

| member | source | states |
|---|---|---|
| TcpReceive.TakeSegment | Source/LwIP/src/core/tcp_in.c:1120-1301 | in 32-bit wrapped arithmetic: a segment is taken exactly if its first number is at or before the next expected one, its end behind it, and the window open; taken up to its end or the end of the window, whichever comes first, the FIN only if all of it fits; the bytes are that slice of the segment |
| TcpReceive.FitWindow | Source/LwIP/src/core/tcp_in.c:1220-1241 | a segment longer than the window is cut to it and loses its FIN; otherwise it is unchanged |
| TcpReceive.FrontTest | Source/LwIP/src/core/tcp_in.c:1151-1151 | the front-trim test on wrapped numbers holds exactly when the unwrapped next number lies strictly inside the segment, for segments less than 2^31 away |
| TcpReceive.WindowTest | Source/LwIP/src/core/tcp_in.c:1213-1215 | the window test and the next-in-sequence test together hold exactly for a segment at the next number with the window open |
| TcpReceive.EdgeTests | Source/LwIP/src/core/tcp.c:580-594 | the three comparisons of the window announcement agree with unwrapped arithmetic |
| TcpReceive.EdgeGaps | Source/LwIP/src/core/tcp.c:585-593 | its two 32-bit differences are the unwrapped distances |
| TcpReceive.UpdateAnn | Source/LwIP/src/core/tcp.c:578-599 | the whole window is announced when the edge moves by half a window or a segment, else the old edge is kept, never less; the result is how far the edge would move |
| TcpReceive.AssertionHolds | Source/LwIP/src/core/tcp.c:593-594 | the `new_rcv_ann_wnd <= 0xffff` assertion holds in every state of a connection, whatever the application returns: the announced edge is never more than a window (and the FIN) behind |
| TcpReceive.Pcb.Recved | Source/LwIP/src/core/tcp.c:609-638 | returned bytes reopen the window by exactly their number, never past TCP_WND, and an update goes out exactly when it is worthwhile and a quarter of the window; conservation, stream and edge invariants kept |
| TcpReceive.Pcb.Announce | Source/LwIP/src/core/tcp.c:624-633 | when an update is sent, in plain numbers, and that what remains unannounced is at most a window (and the FIN) |
| TcpReceive.Pcb.Output | Source/LwIP/src/core/tcp_out.c:112-112 | sending moves the announced edge to rcv_nxt + rcv_ann_wnd, never left |
| TcpReceive.Pcb.Consume | Source/LwIP/src/core/tcp_in.c:1295-1301 | taking bytes and FIN conserves rcv_wnd + unreturned bytes + pending FIN = TCP_WND and keeps the announced edge |
| TcpReceive.Pcb.Receive | Source/LwIP/src/core/tcp_in.c:1120-1322 | the data handed up is exactly the continuation of the peer's stream; FIN only at the stream's end |
| TcpReceive.Pcb.Offer | Source/LwIP/src/core/tcp_in.c:349-360 | accepted data joins the accepted prefix, refused data is kept, an abort drops it; nothing else changes |
| TcpReceive.Pcb.IndicateEnd | Source/LwIP/src/core/tcp_in.c:368-378 | end of stream is indicated once, after all data, and gives the FIN's number back to the window |
| TcpReceive.Pcb.ProcessRefused | Source/LwIP/src/core/tcp.c:1083-1119 | refused data is offered again, once; its delayed end of stream follows exactly when the data is accepted |
| TcpReceive.Pcb.FastTimer | Source/LwIP/src/core/tcp.c:1066-1076 | refused data is offered again, but never in TIME_WAIT |
| TcpReceive.Pcb.InWindow | Source/LwIP/src/core/tcp_in.c:591-594 | the reset test is exact: unwrapped number between rcv_nxt and rcv_nxt + rcv_wnd |
| TcpReceive.Pcb.Process | Source/LwIP/src/core/tcp_in.c:730-768 | receiving in the states before the peer's FIN, and the state change that follows |
| TcpReceive.Pcb.LateSegment | Source/LwIP/src/core/tcp_in.c:730-787 | after the peer's FIN no data is taken; acknowledging our FIN ends the connection and drops what is still refused (CLOSING to TIME_WAIT, LAST_ACK) |
| TcpReceive.Pcb.Deliver | Source/LwIP/src/core/tcp_in.c:329-379 | data, then end of stream, with every callback answer: accepted, kept with its FIN, or lost by aborting |
| TcpReceive.Pcb.Segment | Source/LwIP/src/core/tcp_in.c:303-379 | processing and delivery of one ordinary segment hand over exactly the fresh slice |
| TcpReceive.Pcb.Retry | Source/LwIP/src/core/tcp_in.c:292-302 | refused data goes first; a segment with data is dropped unseen exactly while data is still refused |
| TcpReceive.Pcb.ArriveKept | Source/LwIP/src/core/tcp_in.c:292-304 | refused data first, then the segment, against the window the application has reopened |
| TcpReceive.Pcb.Dispatch | Source/LwIP/src/core/tcp_in.c:303-379 | outcome for ordinary segments, resets and connection attempts |
| TcpReceive.Pcb.Input | Source/LwIP/src/core/tcp_in.c:285-383 | stream integrity for any order, duplication and overlap of genuine segments: accepted + lost + kept is the stream up to rcv_nxt, end of stream at most once and last, window conserved, edge monotone; rcv_nxt moves exactly to the end of an in-sequence segment or of the window, and otherwise not at all; the TCP state follows the FIN taken and our FIN acknowledged; while the connection lives bytes are lost exactly in CLOSING to TIME_WAIT with data still refused; nothing is offered any more in TIME_WAIT |
| TcpReceive.LosingRun | Source/LwIP/src/core/tcp_in.c:769-778 | a run that loses a received byte: half-closed, the last data refused, our FIN acknowledged |
| TcpReceive.StrandedRun | Source/LwIP/src/core/tcp_in.c:739-749 | a run that ends in TIME_WAIT with the last data kept and never offered again |
| TcpReceive.Pcb.Purge | Source/LwIP/src/core/tcp.c:1497-1502 | purging moves what is kept to the lost bytes and nothing else |
| TcpReceive.Pcb.Close | Source/LwIP/src/core/tcp.c:168-297 | the peer is reset if and only if some received byte was not accepted and returned |
| TcpReceive.Pcb.ShutdownRx | Source/LwIP/src/core/tcp.c:318-329 | shutting the receive side drops exactly what is kept |
| TcpReceive.Pcb.ShutdownTx | Source/LwIP/src/core/tcp.c:330-343 | sending our FIN changes only the state |
| Rto.SampledWithin | Source/LwIP/src/core/tcp_in.c:1099-1107 | one measurement keeps the deviation at least 3 and both filter parts within the bounds set by the longest measurement |
| Rto.FilterWeights | Source/LwIP/src/core/tcp_in.c:1099-1107 | the weights one eighth and one quarter of section 2 of RFC 6298, up to rounding |
| Rto.Settles | Source/LwIP/src/core/tcp_in.c:1091-1113 | steady measurements settle the filter at the measurement, deviation 3, time-out 3 above, and there it stays |
| Rto.RunWithin | Source/LwIP/src/core/tcp_in.c:1091-1113 | the same over every sequence of measurements |
| Rto.TimeoutBounds | Source/LwIP/src/core/tcp_in.c:1091-1113 | from the initial values, every run of measurements of at most R ticks gives a time-out in [3, 5R + 3] |
| Rto.FilterFits | Source/LwIP/src/core/tcp_in.c:1095-1107 | measurements below 4096 ticks never cut anything |
| Rto.BackoffFits | Source/LwIP/src/core/tcp.c:855-857 | all thirteen back-offs of a time-out fit in 16 bits if and only if it is at most 255 ticks |
| Rto.BackoffDoubles | Source/LwIP/src/core/tcp.c:92-93 | each retransmission doubles the time-out, up to 128 times |
| Rto.BackoffNeverOverflows | Source/LwIP/src/core/tcp.c:92-93 | with measurements of at most 50 ticks no back-off ever overflows |
| Rto.Estimator.Measure | Source/LwIP/src/core/tcp_in.c:1095-1107 | each 16-bit field is the exact value cut to 16 bits, and the filter is exact if and only if both parts fit |
| Rto.Estimator.Backoff | Source/LwIP/src/core/tcp.c:855-857 | the back-off is the filter's time-out shifted by the table entry, exact up to 255 ticks |
| Rto.Estimator.constructor | Source/LwIP/src/core/tcp.c:1317-1320 | initial average, deviation and time-out |
| Netconn.LogReply | Source/LwIP/src/api/api_msg.c:1343-1390 | an immediate answer keeps: every issued message acknowledged exactly once, the current one not at all |
| Netconn.LogFinish | Source/LwIP/src/api/api_msg.c:1316-1327 | completing the current message keeps the same |
| Netconn.HandedIsWritten | Source/LwIP/src/api/api_msg.c:1208-1333 | when all writes were blocking and succeeded, the bytes given to tcp_write are exactly the callers' bytes, once and in order |
| Netconn.WriteCompletes | Source/LwIP/src/api/api_msg.c:1208-1333 | however often memory is short, a blocking write completes once as many turns found room as it has bytes |
| Netconn.ResumeAll | Source/LwIP/src/api/api_msg.c:277-337 | resumed by any sequence of callbacks, a pending blocking write is exactly as far as the turns take it, and is acknowledged with all its bytes when they take it all the way |
| Netconn.CompleteWrite | Source/LwIP/src/api/api_msg.c:1208-1333 | so it completes, with every byte handed over once and in order, when enough turns find room and memory |
| Netconn.TrippingRun | Source/LwIP/src/api/api_msg.c:1355-1358 | a run in which the `already writing` assertion fails |
| Netconn.Conn.Hand | Source/LwIP/src/api/api_msg.c:1243-1279 | one turn that succeeds hands over exactly the least of the rest of the data, the send buffer and 65535 bytes; one that fails hands over nothing |
| Netconn.Chunk | Source/LwIP/src/api/api_msg.c:1243-1256 | bounded by the data, the buffer and 65535, and equal to one of them |
| Netconn.Conn.WriteMore | Source/LwIP/src/api/api_msg.c:1208-1333 | a write waits exactly while it is blocking and not all is handed over or memory is short; otherwise it completes once, reporting exactly the prefix handed over on success; the offset stays set exactly when it ends with an error after bytes were handed over |
| Netconn.Conn.DoWrite | Source/LwIP/src/api/api_msg.c:1343-1390 | the answers given at once; a non-blocking write reports exactly the least of its length, the send buffer and 65535, or would-block or memory errors; a blocking one with room for all is done at once, else becomes the current message; the `already writing` assertion fails exactly when the last write begun returned an error after bytes had been handed over |
| Netconn.Conn.CloseInternal | Source/LwIP/src/api/api_msg.c:747-821 | closing completes exactly when tcp_close or tcp_shutdown succeeds; otherwise the message stays pending; closing a connection attempt always completes |
| Netconn.Conn.DoClose | Source/LwIP/src/api/api_msg.c:1451-1482 | the refusals; a whole close waits only for memory for the FIN, half of one also for a connection that can send; the pending message is never disturbed |
| Netconn.Conn.DoDelconn | Source/LwIP/src/api/api_msg.c:832-888 | refused during a write or close; otherwise closed, a non-blocking connect included |
| Netconn.Conn.DoConnect | Source/LwIP/src/api/api_msg.c:984-1032 | a blocking connect becomes the current message, a non-blocking one is answered at once |
| Netconn.Conn.DoConnected | Source/LwIP/src/api/api_msg.c:937-974 | completes the blocking connect, and no message for a non-blocking one |
| Netconn.Conn.ErrTcp | Source/LwIP/src/api/api_msg.c:347-404 | a reset at any point completes exactly the pending message, if there is one |
| Netconn.Conn.Resume | Source/LwIP/src/api/api_msg.c:277-337 | poll and sent callbacks go on with exactly the pending write or close |
| Netconn.Conn.DoListen | Source/LwIP/src/api/api_msg.c:1064-1110 | answered at once; LISTEN exactly on success; without memory for the mailbox the pcb is gone |
| Netconn.Conn.SetNonblocking | Source/LwIP/src/include/lwip/api.h:256-260 | the flag alone changes; it is noted when a write is part of the way |
| Select.NoLostWakeup | Source/LwIP/src/api/sockets.c:1106-1221 | in every interleaving a blocked thread, with data to read, room to write or an error on a socket it watches for that, has been signalled or a callback for that socket has still to look at it |
| Select.OnlyLeftovers | Source/LwIP/src/api/sockets.c:1054-1073 | a thread asleep although its scan would find something has only leftover data to find |
| Select.EventWakes | Source/LwIP/src/api/sockets.c:1285-1347 | a reception, room to write or an error on a socket a blocked thread watches for it signals the thread or leaves a callback that will look at it |
| Select.EventRecorded | Source/LwIP/src/api/sockets.c:1286-1306 | what each event leaves behind at its socket, and nothing at others |
| Select.SignalledForCause | Source/LwIP/src/api/sockets.c:1322-1347 | a thread is signalled only for something that has happened on a socket it watches for that |
| Select.ScanFinds | Source/LwIP/src/api/sockets.c:1025-1078 | the scan, undisturbed, finds something exactly when a socket is readable (leftover data included), writable or in error as asked for |
| Select.ScanDecides | Source/LwIP/src/api/sockets.c:1166-1181 | a thread blocks exactly if its scan found nothing |
| Select.CallbackReaches | Source/LwIP/src/api/sockets.c:1320-1357 | such a callback, left alone, signals the thread after exactly as many steps as there are waiters up to it |
| Select.LeftoverUnnoticed | Source/LwIP/src/api/sockets.c:1056-1056 | the exception is reachable: data arrives and is taken, a thread selects and blocks, some of the data is left over, and the thread sleeps although the scan would find it, with nothing signalled and no callback under way |
| Select.NeverDangling | Source/LwIP/src/api/sockets.c:1348-1356 | a callback goes on from a waiter only while that waiter is on the list |
| Select.NextKeeps | Source/LwIP/src/api/sockets.c:1106-1357 | every step of every thread and callback keeps list, semaphores, callback positions, the registration counts and the wake-up guarantee |
| Select.RegisterKeeps | Source/LwIP/src/api/sockets.c:1150-1162 | registering keeps select_waiting equal to the number of registered threads |
| Select.ScanKeeps | Source/LwIP/src/api/sockets.c:1164-1181 | the second scan closes the gap between the first scan and registration |
| Select.UnregisterKeeps | Source/LwIP/src/api/sockets.c:1182-1194 | unregistering keeps the counts |
| Select.EnterKeeps | Source/LwIP/src/api/sockets.c:1135-1148 | joining the list makes every callback start over and loses nothing |
| Select.LeaveKeeps | Source/LwIP/src/api/sockets.c:1195-1209 | leaving the list makes every callback start over and loses nothing |
| Select.WokenKeeps | Source/LwIP/src/api/sockets.c:1180-1180 | taking the semaphore or timing out keeps the invariant; the semaphore never counts past one |
| Select.FireKeeps | Source/LwIP/src/api/sockets.c:1285-1347 | an event with nobody registered needs no walk; with a registered thread the new callback covers everyone |
| Select.ResumeKeeps | Source/LwIP/src/api/sockets.c:1320-1357 | one more step of a callback loses nobody |
| Select.CountedOnce | Source/LwIP/src/api/sockets.c:385-393 | every receive event raised is counted exactly once or still under way, on whichever side of the hand-over to the accepted socket it falls, for every interleaving |
| Select.AcceptKeeps | Source/LwIP/src/api/sockets.c:1257-1306 | every step of that hand-over keeps raised = counted + under way |
| Select.AcceptRunKeeps | Source/LwIP/src/api/sockets.c:1257-1306 | and so does every run |
| Select.RecordedIffLate | Source/LwIP/src/api/sockets.c:1259-1275 | an event other than a reception, raised before the hand-over, is recorded if and only if its callback looks again after the hand-over |
| Select.ErrorDropped | Source/LwIP/src/api/sockets.c:1266-1272 | an error raised and looked at before the hand-over is lost |
| BlockList.FreedKeepsHeap | Source/Ports/Cortex-M3/os_dmem.c:297-340 | freeing with coalescing keeps the blocks tiling the heap with no two free neighbours |
| BlockList.AllocatedKeepsHeap | Source/Ports/Cortex-M3/os_dmem.c:210-255 | allocating with an optional split keeps the same |
| BlockList.AllocatedAt | Source/Ports/Cortex-M3/os_dmem.c:215-245 | the block handed out is as large as asked for, or the whole free block when the rest is too small to keep |
| BlockList.AllocThenFree | Source/Ports/Cortex-M3/os_dmem.c:210-340 | allocating in a free block and freeing the result restores the block list exactly |
| BlockList.FreedEitherOrder | Source/Ports/Cortex-M3/os_dmem.c:297-340 | merging forward first or backward first gives the same list |
| BlockList.RunKeepsHeap | Source/Ports/Cortex-M3/os_dmem.c:147-347 | every run of allocations and frees keeps the heap invariant |
| BlockList.FreeingAllRestores | Source/Ports/Cortex-M3/os_dmem.c:273-347 | freeing all outstanding blocks in any order leaves the single initial block |
| BlockList.Confluence | Source/Ports/Cortex-M3/os_dmem.c:73-347 | after any run, freeing the outstanding blocks in any order restores the initial heap and all of its free bytes |
| OsDmem.RoundUpCovers | Source/Ports/Cortex-M3/os_dmem.c:170-178 | the round-up covers the request exactly when it does not overflow 32 bits |
| OsDmem.AdjustedLeast | Source/Ports/Cortex-M3/os_dmem.c:170-178 | the adjusted size is a whole number of words, covers request and minimum, and exceeds neither by a word |
| OsDmem.PassedOver | Source/Ports/Cortex-M3/os_dmem.c:190-206 | a free block is passed over exactly if it is too small for the request or the minimum |
| OsDmem.Pool.Create | Source/Ports/Cortex-M3/os_dmem.c:73-91 | one free block, available bytes the pool size less two headers; for a pool too small for its two headers the count wraps round to more than the pool has |
| OsDmem.Pool.Search | Source/Ports/Cortex-M3/os_dmem.c:186-207 | the circular search finds the next fit from the search pointer, or proves that no free block fits |
| OsDmem.Pool.Take | Source/Ports/Cortex-M3/os_dmem.c:210-245 | the split or whole allocation on headers is the allocation on the block list, and the byte count follows |
| OsDmem.Pool.GetMem | Source/Ports/Cortex-M3/os_dmem.c:147-265 | the block granted holds the request and wastes less than a word and a block worth keeping; no free block on the way from the search pointer would have held it; refusal exactly when no free block holds it; where the search goes on; circular double links, coalescing, byte count and search pointer stay right |
| OsDmem.Pool.MergeBackward | Source/Ports/Cortex-M3/os_dmem.c:305-323 | merging with a free predecessor, search pointer and byte count included |
| OsDmem.Pool.MergeForward | Source/Ports/Cortex-M3/os_dmem.c:325-340 | merging with a free successor, search pointer and byte count included |
| OsDmem.Pool.FreeMem | Source/Ports/Cortex-M3/os_dmem.c:273-347 | freeing on headers is coalescing on the block list; the search goes on at the block a merge has made |
| OsDmem.Pool.GetThenFree | Source/Ports/Cortex-M3/os_dmem.c:147-347 | getting memory and freeing it restores block list and byte count exactly |
| OsDmem.Pool.FreeAll | Source/Ports/Cortex-M3/os_dmem.c:273-347 | in every state of a pool, freeing the outstanding blocks in any order leaves the single initial block and all bytes but the two headers available |
| LwipMem.RoundedCovers | Source/LwIP/src/core/mem.c:506-513 | the size adjustment covers the request exactly when it does not overflow 16 bits |
| LwipMem.RoundedFits | Source/LwIP/src/core/mem.c:506-513 | a block holds the rounded size exactly if it holds the request and the smallest payload |
| LwipMem.Heap.constructor | Source/LwIP/src/core/mem.c:272-301 | one free block and the end sentinel |
| LwipMem.Heap.Scan | Source/LwIP/src/core/mem.c:528-548 | scanning from the cached lowest free block finds the first fit in the whole heap, or proves there is none |
| LwipMem.Heap.AdvanceLowest | Source/LwIP/src/core/mem.c:591-610 | the cache moves to the lowest free block or the end |
| LwipMem.Heap.Malloc | Source/LwIP/src/core/mem.c:492-632 | the block granted holds the request and wastes less than a word and a block worth keeping; no lower free block holds it; NULL only when none does; links, coalescing and the lowest-free cache stay right; nothing is written inside the payload of another block in use |
| LwipMem.Heap.PlugHoles | Source/LwIP/src/core/mem.c:234-267 | merges exactly the free neighbours and keeps the cache |
| LwipMem.Heap.Free | Source/LwIP/src/core/mem.c:309-355 | the freed block is coalesced, the cache kept, nothing written inside another payload; a pointer outside the heap changes nothing |
| LwipMem.Heap.Trim | Source/LwIP/src/core/mem.c:367-481 | succeeds exactly when the block holds the request; then it has less than a word too much and the rest is free, unless that is too little to keep in front of a block in use; all invariants kept; nothing written inside another payload |
| LwipMem.TrimmedFrees | Source/LwIP/src/core/mem.c:420-475 | the rest of a trimmed block is given to the free block behind or becomes one |
| LwipMem.FreedKeepsOthers | Source/LwIP/src/core/mem.c:309-355 | freeing leaves every other block in use as it was |
| LwipMem.AllocatedKeepsOthers | Source/LwIP/src/core/mem.c:547-587 | allocating leaves every other block in use as it was |
| LwipMem.TrimmedKeepsOthers | Source/LwIP/src/core/mem.c:420-475 | trimming leaves every other block in use as it was |
| LwipMem.TrimmedCoalesced | Source/LwIP/src/core/mem.c:420-475 | trimming an allocated block never leaves two free neighbours |
| LwipMem.PayloadUntouched | Source/LwIP/src/core/mem.c:234-632 | no header written by an operation lies inside the payload of a block present before and after |
| LwipMem.OthersSpared | Source/LwIP/src/core/mem.c:234-632 | so an operation that keeps the other used blocks writes nothing inside their payloads |
| LwipMem.ShiftChain | Source/LwIP/src/core/mem.c:420-444 | moving a border down keeps next and prev inverse to each other |
| Memp.ListEnds | Source/LwIP/src/core/memp.c:180-198 | the two-pointer search terminates on every finite link structure and succeeds if and only if the list is acyclic |
| Memp.MeetingPoint | Source/LwIP/src/core/memp.c:187-195 | on a list that never ends the two pointers meet |
| Memp.RepeatNeverEnds | Source/LwIP/src/core/memp.c:189-193 | if the pointers meet the list never ends |
| Memp.Pools.Sanity | Source/LwIP/src/core/memp.c:180-198 | true if and only if no pool's list is cyclic, and so for every reachable set of pools |
| Memp.Pools.constructor | Source/LwIP/src/core/memp.c:336-374 | each pool has exactly its configured number of elements, one behind the other; all are pairwise disjoint and free |
| Memp.CellsApart | Source/LwIP/src/core/memp.c:352-368 | elements of one pool do not overlap |
| Memp.CellsExact | Source/LwIP/src/core/memp.c:359-367 | a pool has as many elements as configured, and ends right behind the last |
| Memp.CellAt | Source/LwIP/src/core/memp.c:359-367 | element k of a pool is at its start plus k sizes |
| Memp.PoolsAdjoin | Source/LwIP/src/core/memp.c:353-368 | the pools follow one another without gaps |
| Memp.PoolsSeparate | Source/LwIP/src/core/memp.c:352-368 | no element belongs to two pools or twice to one |
| Memp.CarvePool | Source/LwIP/src/core/memp.c:353-368 | the carving loop builds the free list of exactly those elements |
| Memp.Pools.Malloc | Source/LwIP/src/core/memp.c:388-425 | NULL exactly for a bad pool number or an empty pool, else an element nobody holds; every element stays allocated or exactly once on its own list |
| Memp.Pools.Free | Source/LwIP/src/core/memp.c:433-467 | the element returns to its own list; every other element stays where it was |
| PbufRefs.ReleasedPrefix | Source/LwIP/src/core/pbuf.c:616-693 | freeing deallocates exactly the longest prefix of the chain whose counts reach zero, takes one from the next count and changes nothing else |
| PbufRefs.ReleaseChain | Source/LwIP/src/core/pbuf.c:638-690 | the loop computes that, keeping counts equal to pointers; its result is the number freed modulo 256 |
| PbufRefs.Store.Free | Source/LwIP/src/core/pbuf.c:616-693 | the caller's pointer is given up; every live count still equals links plus handles and no link targets a freed buffer |
| PbufRefs.Store.Alloc | Source/LwIP/src/core/pbuf.c:304-345 | a new buffer with one pointer, the caller's |
| PbufRefs.Store.AllocPool | Source/LwIP/src/core/pbuf.c:235-303 | a chain of the buffers the pool gives, counts of one; when the pool runs empty everything taken is freed and nothing has changed |
| PbufRefs.Store.Ref | Source/LwIP/src/core/pbuf.c:720-731 | one more handle, one more count |
| PbufRefs.Store.Cat | Source/LwIP/src/core/pbuf.c:743-766 | the caller's pointer moves to the end of the chain; the chains are joined |
| PbufRefs.SharedTailCycles | Source/LwIP/src/core/pbuf.c:743-766 | the one demand on the callers is necessary: chains that end in the same buffer would become a cycle |
| PbufRefs.Store.Chain | Source/LwIP/src/core/pbuf.c:784-791 | as cat, the caller keeping its pointer |
| PbufRefs.Store.Truncate | Source/LwIP/src/core/pbuf.c:428-487 | the buffers kept stay, the rest is given up |
| PbufRefs.Store.Dechain | Source/LwIP/src/core/pbuf.c:801-830 | the rest of the chain is given up: exactly its longest prefix with counts of one is freed, and the result dangles exactly when that is a positive multiple of 256 buffers long |
| PbufRefs.DanglingRun | Source/LwIP/src/core/pbuf.c:801-830 | a run that does so, with a chain of 257 buffers |
| PbufRefs.LinkSound | Source/LwIP/src/core/pbuf.c:757-764 | linking keeps counts equal to pointers and chains finite |
| PbufRefs.CutSound | Source/LwIP/src/core/pbuf.c:810-820 | cutting leaves exactly one pointer to give up |
| PbufRefs.CutFreed | Source/LwIP/src/core/pbuf.c:810-820 | what is freed behind the cut is the longest prefix of ones of what followed |
| PbufBytes.CopyPartial | Source/LwIP/src/core/pbuf.c:916-952 | copies exactly the bytes of the flat packet from the offset on, as many as asked for or as there are |
| PbufBytes.Take | Source/LwIP/src/core/pbuf.c:964-994 | replaces the start of the packet, keeping shape and totals; fails exactly when it is too short |
| PbufBytes.PutThenGet | Source/LwIP/src/core/pbuf.c:916-994 | pbuf_take followed by pbuf_copy_partial gives back the bytes put in, for every chain shape |
| PbufBytes.ShrunkIsPrefix | Source/LwIP/src/core/pbuf.c:428-487 | the cut chain is the prefix of the packet with right totals |
| PbufBytes.Realloc | Source/LwIP/src/core/pbuf.c:428-487 | in 16-bit arithmetic, the packet becomes its prefix, totals right; it never grows |
| PbufBytes.TrimFront | Source/LwIP/src/core/tcp_in.c:1172-1204 | trimming the front across buffers leaves exactly the suffix of the packet |
| PbufBytes.TrimmedIsSuffix | Source/LwIP/src/core/tcp_in.c:1176-1198 | the trimmed chain spells the suffix |
| PbufBytes.JoinedTotals | Source/LwIP/src/core/pbuf.c:743-766 | raising the totals of the first chain makes the joined chain's totals right |
| PbufBytes.Cat | Source/LwIP/src/core/pbuf.c:743-766 | concatenation of the packets, totals right |
| PbufBytes.CopyTurn | Source/LwIP/src/core/pbuf.c:863-900 | one turn copies up to the nearer buffer end and keeps both cursors at the same flat position |
| PbufBytes.NoErrors | Source/LwIP/src/core/pbuf.c:887-899 | none of the loop's error exits is ever taken |
| PbufBytes.Copy | Source/LwIP/src/core/pbuf.c:850-903 | the source packet replaces the start of the destination for any two shapes without empty buffers; refused exactly when too short |
| PbufBytes.Coalesce | Source/LwIP/src/core/pbuf.c:1008-1025 | one buffer with the same bytes, or the old chain when none can be had |
| DhcpServer.ChosenFacts | Source/App/DhcpServer/dhcp_server.c:268-428 | the entry chosen is idle or the client's own, and only the client's own entry is edited on the way |
| DhcpServer.LookupKeepsInv | Source/App/DhcpServer/dhcp_server.c:204-437 | after the lookup the client holds at most the entry to serve |
| DhcpServer.LookupKeepsOthers | Source/App/DhcpServer/dhcp_server.c:204-437 | entries in use by other clients are untouched |
| DhcpServer.HandleKeeps | Source/App/DhcpServer/dhcp_server.c:669-724 | a message keeps one entry per client, all addresses, and every entry other clients use |
| DhcpServer.RepliesMatch | Source/App/DhcpServer/dhcp_server.c:610-649 | OFFER only answers DISCOVER and ACK only REQUEST, despite the fall-through |
| DhcpServer.RequestExact | Source/App/DhcpServer/dhcp_server.c:330-396 | a REQUEST for a pool address yields an ACK for exactly that address, or a NAK exactly when it is taken by another client or meant for another server |
| DhcpServer.DiscoverRefused | Source/App/DhcpServer/dhcp_server.c:270-328 | a DISCOVER is refused if and only if every entry is in use by another client |
| DhcpServer.AckUnique | Source/App/DhcpServer/dhcp_server.c:594-649 | after an ACK exactly one entry carries the client's address, bound for a full lease |
| DhcpServer.ReleaseFrees | Source/App/DhcpServer/dhcp_server.c:398-422 | RELEASE and DECLINE make the client's entry idle, and only that; a bound entry remembers the client |
| DhcpServer.DiscoverAsked | Source/App/DhcpServer/dhcp_server.c:270-306 | a DISCOVER that names an idle address is offered it |
| DhcpServer.DiscoverAgain | Source/App/DhcpServer/dhcp_server.c:285-289 | otherwise a client being served is offered its address again |
| DhcpServer.DiscoverPriority | Source/App/DhcpServer/dhcp_server.c:291-327 | otherwise a new client gets the address it had, then one nobody had, then anybody's old one |
| DhcpServer.OfferHeld | Source/App/DhcpServer/dhcp_server.c:610-649 | an offer is held for the client for ten ticks |
| DhcpServer.RequestElsewhere | Source/App/DhcpServer/dhcp_server.c:330-396 | a REQUEST for an address outside the pool is granted the client's own or refused |
| DhcpServer.RequestDenied | Source/App/DhcpServer/dhcp_server.c:331-343 | a REQUEST for an address in use by another client costs the sender its own entry, and nothing else changes |
| DhcpServer.TickFrees | Source/App/DhcpServer/dhcp_server.c:116-143 | the last tick of an offer or a lease, or the station's absence, frees the entry; else only the countdown moves |
| DhcpServer.DeleteFrees | Source/App/DhcpServer/dhcp_server.c:759-776 | deleting a client frees its entry if bound, and does nothing else |
| DhcpServer.LeaseExpires | Source/App/DhcpServer/dhcp_server.c:128-141 | a lease that is not renewed is idle again after as many ticks as it had left |
| DhcpServer.PoolFollowsServer | Source/App/DhcpServer/dhcp_server.c:809-844 | the pool follows the server's own address |
| DhcpServer.TickKeeps | Source/App/DhcpServer/dhcp_server.c:106-147 | a tick keeps the invariant and the addresses |
| DhcpServer.RunKeeps | Source/App/DhcpServer/dhcp_server.c:106-785 | over every run of messages, ticks and deletions no two entries in use belong to one client |
| DhcpServer.OfferExpires | Source/App/DhcpServer/dhcp_server.c:119-127 | an unclaimed offer is idle again within ten ticks whatever other clients do |
| DhcpServer.PoolHostsLegal | Source/App/DhcpServer/dhcp_server.c:809-844 | pool addresses are never the network, broadcast or server address |
| DhcpServer.PoolDistinct | Source/App/DhcpServer/dhcp_server.c:828-844 | the eight addresses are distinct if and only if the first host part is at most n - 7 |
| DhcpServer.Server.ScanTable | Source/App/DhcpServer/dhcp_server.c:224-266 | one pass finds the first or last entry of each kind |
| DhcpServer.Server.Choose | Source/App/DhcpServer/dhcp_server.c:268-428 | the switch computes the chosen entry and the table edits |
| DhcpServer.Server.ClientTableLookup | Source/App/DhcpServer/dhcp_server.c:204-437 | the lookup on the table |
| DhcpServer.Server.CleanHistory | Source/App/DhcpServer/dhcp_server.c:594-608 | idle entries with the client's address lose it; all others stay |
| DhcpServer.Server.SmeHandle | Source/App/DhcpServer/dhcp_server.c:610-649 | the per-client state machine with its fall-through |
| DhcpServer.Server.RecvCb | Source/App/DhcpServer/dhcp_server.c:669-724 | table and reply for every message, invariant kept |
| DhcpServer.Server.TickHandle | Source/App/DhcpServer/dhcp_server.c:106-147 | offers and leases count down; nothing happens while disabled |
| DhcpServer.Server.ClientDelete | Source/App/DhcpServer/dhcp_server.c:743-779 | only a bound entry becomes idle; the error codes |
| DhcpServer.Server.constructor | Source/App/DhcpServer/dhcp_server.c:796-865 | eight idle entries with the computed addresses |
| Timers.InsertPlaces | Source/LwIP/src/core/timers.c:265-308 | insertion keeps every other deadline and puts the new timer behind all that are due no later |
| Timers.CancelRemovesOne | Source/LwIP/src/core/timers.c:320-347 | cancelling removes the first matching timer or nothing |
| Timers.InsertedRefines | Source/LwIP/src/core/timers.c:286-307 | inserting relative times inserts the absolute deadline; the total stays the latest deadline |
| Timers.CancelledRefines | Source/LwIP/src/core/timers.c:329-345 | removing from the relative list removes the deadline and no other; the total never grows |
| Timers.InsertTimeo | Source/LwIP/src/core/timers.c:286-307 | the walking loop computes that insertion |
| Timers.RemoveTimeo | Source/LwIP/src/core/timers.c:329-345 | the removing loop computes that removal and never overflows 32 bits |
| Timers.FiresOnTime | Source/LwIP/src/core/timers.c:422-477 | over every fetch, if no reported wait is overlong, every timer fires with the deadline it was armed with and exactly then, re-armed timers included, and no deadline is ever past |
| Timers.FetchedAccounted | Source/LwIP/src/core/timers.c:422-477 | every timer asked for is called, cancelled or pending, each once, whatever the handlers do |
| Timers.CalledOnDelay | Source/LwIP/src/core/timers.c:265-477 | over every run of requests, cancellations and fetches without overlong waits, each handler is called exactly the delay asked for after the request |
| Timers.InsertedPlaces | Source/LwIP/src/core/timers.c:286-307 | where a relative time puts the deadline among the old ones |
| Timers.Queue.Elapse | Source/LwIP/src/core/timers.c:466-475 | charging a wait to the list leaves every deadline as it was if and only if the wait was no longer than the head had to wait |
| Timers.Queue.Expire | Source/LwIP/src/core/timers.c:440-447 | the head taken off after its wait is at its deadline on the counted clock |
| Timers.Queue.FetchOnce | Source/LwIP/src/core/timers.c:431-476 | one turn in terms of the list: the wait handed to the mailbox is the head's time, 0 with nothing pending, none if the head is due; when the head fires, how the clock moves and which call is made |
| Timers.Queue.Timeout | Source/LwIP/src/core/timers.c:265-308 | the deadline ms after now is put behind all that are due no later, before all that are due later, and no other deadline changes |
| Timers.Queue.Untimeout | Source/LwIP/src/core/timers.c:320-347 | the first timer with that handler and argument is removed, or nothing if there is none, and no other deadline changes |
| Timers.Queue.MboxFetch | Source/LwIP/src/core/timers.c:422-477 | the fetch loop, with the waits it asks for and the clock it counts, does exactly what the schedule of absolute deadlines does; every handler was called at its deadline and 0 was asked for only with nothing pending |

## Left out

- The sending side of TCP (segmentation, retransmission, congestion control) and `tcp_output`, apart from its effect on the announced edge and the retransmission time-out.
- Connection set-up (LISTEN, SYN_SENT and SYN_RCVD in `tcp_process`), option parsing and checksums.
- Out-of-order queueing, which the shipped configuration turns off, and the loops of `tcp_fasttmr` and `tcp_slowtmr` over the PCB lists.
- Calls back into TCP from a receive callback other than returning bytes or aborting.
- TcpReceive.Pcb.Input: assumes genuine segments shorter than 32767 bytes and less than half the sequence space away.
- TcpReceive.Pcb.Announce: a window update that `tcp_recved` asks for is sent; `tcp_output` failing for lack of memory is not modelled.
- Rto.Estimator.Measure: starts from non-negative fields and measurements below 32768 ticks, as the comment in the code expects; what follows a truncation is not followed up.
- Netconn: UDP and raw netconns, mailboxes, send time-outs, core locking, and the write-space events for select(); a NULL data pointer.
- Select: reads of a connection before accept() has returned it, sockets closed while a thread selects on them, the wrap-around of `select_cb_ctr` and of the 16-bit event counters, and the pointer form of the waiter list, which is a sequence here. Every protected region is one step, as the code is written, although lwipopts.h turns the protection off.
- LwipMem: payload bytes themselves; a header is one cell at its address, so overlap is shown for header addresses. The pool variant of the allocator is not modelled.
- OsDmem: the optional argument checks that return error codes, a minimum allocation of zero, and requests that overflow the round-up (`OsDmem.RoundUpCovers` gives the exact limit).
- Memp: overflow checks around elements, alignment of the pool memory, and freeing what is not allocated.
- PbufRefs: counts are unbounded; custom buffers and the release of memory by type are left out.
- PbufBytes: `pbuf_header` apart from moving the payload forward inside `TrimFront`, `pbuf_memfind` and `pbuf_strstr`.
- DhcpServer: parsing of options, the header checks of a message, building and sending replies, replies dropped for lack of memory, and the NULL check of `DHCPS_ClientDelete`.
- Timers.Queue.Timeout: the branch in which the timeout pool is exhausted; the time base of `NO_SYS` builds.
- The DHCP client, DNS, HTTP, AT commands, drivers and the operating system ports.
