# Verified model of the router

The repository is a software router (forwarding, link-state routing, DNS) with an old TCP/IP stack, lwIP, inside it. This
project models the parts of it whose correctness is not visible from reading one function, and proves what they are for.
Each module follows one component:

| module | component | what is proved |
|---|---|---|
| `TcpSegments`, `TcpSend` | the send queues of TCP | `unacked` and `unsent` are always one contiguous run of segments that carries exactly the octets written and not yet covered, through every run of writes, transmissions, time-outs and acknowledgements; no segment exceeds the segment size |
| `TcpReceive` | the receive side of TCP | whatever the order, overlap and repetition of arriving segments, what is handed up is exactly the stream up to `rcv_nxt`; `rcv_nxt` moves to the first number that is missing, and no state is stuck |
| `PcbLists` | control blocks, TCP states, timers, demultiplexing | every run keeps each block on the one list its state names, and each arrow of the diagram of RFC 793 is taken exactly when it is called for, from opening to TIME-WAIT and removal; when the 16-bit time stamps are right |
| `ShortestPath`, `RouteTable` | route computation | the distances are shortest-path distances, the merge takes the lowest interface that attains the minimum, and the rebuilt table holds exactly the static routes and one shortest route per subnet that what was announced leads to |
| `PrefixMatch` | forwarding lookup | comparing byte-reversed masks as words finds the first entry of the longest prefix |
| `Heap` | the first-fit heap | the block list partitions the heap, free neighbours are merged, allocations are disjoint, first fit is exact |
| `Checksum` | the Internet checksum | two implementations, one of them over chained buffers of odd length, equal the one's-complement sum of the flat bytes |
| `Mailbox` | the mailbox protocol | every interleaving delivers in order and loses no wake-up, as long as at most 99 messages wait; every schedule comes to an end, with everything delivered |
| `Timeouts` | the timer list | relative times refine absolute deadlines; how early or late each handler runs, exactly; handlers run in the order of the true deadlines while the list keeps step with the clock |
| `PbufPool` | the packet-buffer pool | every buffer is in one place; allocation fails exactly when too few are free, and loses none |
| `StreamSearch` | searching an incoming stream | however the stream is cut into reads, the first occurrence is found, if there is one and enough is read |
| `DnsCodec`, `DnsAnswer`, `DnsRecords` | DNS messages | parsing inverts encoding exactly for labels of 1 to 255 bytes; the builder writes to the end of the packet and no further, and a receiver reads back its questions and records |

`MachineWords` holds fixed-width arithmetic and serial-number comparison, `Slices` facts about sequences, `TcpTypes` the TCP states.

Code that updates things in place is modelled by classes and methods with the same loops and branches; each is proved
against a function or predicate over values, and the main results are lemmas about those. Sequence numbers are integers in
the model, and every decision the code takes on 32-bit words is taken on the truncated words; the proofs show when the two
agree. Memory that may run out, the clock, the bytes that `read` returns and the contents of the window fields are parameters.

Some properties one would expect are false of the code. Each has an example and an exact condition:

- An acknowledgement half the number space away, when nothing is outstanding, passes the test for new data and breaks the
  send queues (`HalfTurnExample`, `AckInv`).
- The sum of `snd_buf` and the outstanding numbers falls by one when a SYN is answered (`ActivelyOpened`, `AnswerBalances`).
- An empty segment that is sent is freed without being uncounted. No caller of the stack queues one (`LeakExample`,
  `SendLeaks`, `Sender.Perform`).
- An acknowledgement that covers all that was moved back to `unsent` by a time-out leaves `snd_nxt` at the last segment. The
  test that recognises the acknowledgement of the own FIN then fails (`StaleExample`, `NextExact`, `Sender.Step`).
- A FIN closes wherever it lies, also past the window (`FinExample`, `ProcessExact`).
- A longer segment with the start of a queued one replaces it without being trimmed, and may then overlap the next one
  (`OverrunExample`, `ArriveKeeps`).
- The idle time of a connection is computed from a 16-bit stamp (`ExpiredExample`, `ReclaimExample`, `IdleExact`,
  `LongestIsOldest`, `WaitLasts`).
- `tcp_listen` without memory leaves a block in LISTEN on no list (`ListenExample`, `Stack.Listen`).
- A default route is never selected (`DefaultRouteExample`, `DefaultRouteUnused`).
- `mem_realloc` neither rounds nor lowers the free-block hint (`ReallocExample`, `Allocator.Realloc`).
- The three largest requests to `mem_malloc` are rounded to 0 and served (`FirstMalloc`, `RoundedMeans`).
- The hundredth undelivered message makes a full mailbox look empty (`FullExample`, `StepKeeps`).
- A handler may run before its deadline: a fetch that finds a message waiting takes no time and reports 1. A wait reports more
  than it took exactly when it took nothing, and a handler is early exactly when the list has got ahead of the clock since it
  was armed (`EarlyExample`, `FetchWait`, `CountedExact`, `LatenessExact`, `Thread.Perform`).
- A wait that outlasts the first timer puts off all timers armed before it (`OutlastExample`, `OutOfOrder`, `InTime`).
- A checksum whose words sum to 2^32 or more is wrong (`OnesExample`, `GenerateChecksum`).
- A label of no bytes or more than 255, and a name of 64 KiB in a pointer record, cannot be encoded (`LabelExamples`,
  `NameRoundTrip`, `PtrExample`, `Answer.AddPtr`). The one caller that adds pointer records takes the name from a buffer of
  256 bytes and does not reach the second.

## Model

| member | source | states |
|---|---|---|
| `MachineWords.SerialAgrees` | SW_stub/lwtcp/lwip/tcp.h:108-111 | within half the number space the four comparisons on 32-bit words are the integer comparisons (section 3.3 of RFC 793) |
| `MachineWords.SerialLtExact` | SW_stub/lwtcp/lwip/tcp.h:108-108 | within one turn of the number space, "less than" is right exactly inside that window |
| `MachineWords.UnwrapIsNearest` | SW_stub/lwtcp/lwip/tcp.h:108-111 | a word stands for exactly one integer within half a turn of a given one |
| `MachineWords.AndBits` | SW_stub/djikstra.c:159-161 | the masked address has a bit exactly where address and mask have it |
| `TcpSegments.RunCarries` | SW_stub/lwtcp/tcp_output.c:145-249 | a run of abutting segments carries exactly the stretch of the written stream between its ends |
| `TcpSegments.CutIsRun` | SW_stub/lwtcp/tcp_output.c:145-249 | cutting a write into segments loses no octet and numbers the pieces consecutively |
| `TcpSegments.CutFills` | SW_stub/lwtcp/tcp_output.c:147-147 | no piece exceeds the maximum segment size and every piece but the last has exactly that size |
| `TcpSegments.MergeIsRun` | SW_stub/lwtcp/tcp_output.c:259-277 | chaining the first new segment to the last unsent one keeps the run and the number of buffers |
| `TcpSegments.JoinedIsRun` | SW_stub/lwtcp/tcp_output.c:252-304 | appending a write, with coalescing and PSH, yields one run from the old start to the new end, with all buffers counted |
| `TcpSegments.JoinedExact` | SW_stub/lwtcp/tcp_output.c:252-304 | the last unsent segment grows by the first new piece if and only if it holds data, neither is marked SYN or FIN and both together fit in `mss`; every other segment and every flag, PSH on the last piece included |
| `TcpSegments.QueuedFits` | SW_stub/lwtcp/tcp_output.c:147-265 | queueing a write makes no segment longer than `mss` that was not before |
| `TcpSegments.InWindowMeans` | SW_stub/lwtcp/tcp_output.c:401-402 | for a pending segment the unsigned window test says that its last octet is within the window past the mark |
| `TcpSegments.SendKeepsRun` | SW_stub/lwtcp/tcp_output.c:413-439 | moving the first unsent segment to the end of the unacknowledged ones keeps both runs abutting |
| `TcpSegments.DropAcked` | SW_stub/lwtcp/tcp_input.c:703-752 | the removal loop drops exactly the longest prefix whose segments the word covers, and returns its number of buffers |
| `TcpSegments.DropAckedMeans` | SW_stub/lwtcp/tcp_input.c:703-752 | near the mark, the segments dropped are exactly those that end at or before the acknowledged number |
| `TcpSegments.AckKeepsRun` | SW_stub/lwtcp/tcp_input.c:697-752 | dropping from both lists drops one prefix of their concatenation and leaves one run past the new mark |
| `TcpSend.AckGuardExact` | SW_stub/lwtcp/tcp_input.c:649-650 | the test for new data admits exactly the numbers up to the highest sent and, when nothing is outstanding, the number half a turn away |
| `TcpSend.AckCases` | SW_stub/lwtcp/tcp_input.c:624-650 | which of the three cases an acknowledgement falls into, for every 32-bit number |
| `TcpSend.HalfTurnExample` | SW_stub/lwtcp/tcp_input.c:649-650 | a state that keeps the invariant, with nothing outstanding at any number, in which the number half a turn away passes the test for new data and the mark moves past everything written |
| `TcpSend.AckInv` | SW_stub/lwtcp/tcp_input.c:666-752 | an admitted acknowledgement keeps the invariant of the send side if and only if it is not that half turn |
| `TcpSend.NextExact` | SW_stub/lwtcp/tcp_input.c:703-727 | after an acknowledgement `snd_nxt` is the first unsent number if and only if the acknowledgement does not cover all of an unsent list; where it stays otherwise |
| `TcpSend.StaleExample` | SW_stub/lwtcp/tcp_input.c:703-727 | a byte and a FIN that are sent, time out and are acknowledged together: nothing is outstanding and `snd_nxt` is the number of the FIN |
| `TcpSend.OneRun` | SW_stub/lwtcp/tcp_output.c:97-442 | in every state that keeps the invariant, `unacked` followed by `unsent` is one ordered run up to `snd_lbb` past `lastack`, and carries exactly what was written from its start on |
| `TcpSend.Span` | SW_stub/lwtcp/tcp_output.c:129-134 | the queues span less than half the number space, so serial comparison is exact on them |
| `TcpSend.WriteInv` | SW_stub/lwtcp/tcp_output.c:252-304 | queueing a freshly cut write keeps the invariant |
| `TcpSend.SendInv` | SW_stub/lwtcp/tcp_output.c:413-439 | transmitting the first unsent segment keeps the invariant |
| `TcpSend.SendsFaithfully` | SW_stub/lwtcp/tcp_output.c:401-440 | every segment that leaves carries the octets written at its numbers |
| `TcpSend.ExpireInv` | SW_stub/lwtcp/tcp.c:459-480 | a retransmission time-out keeps the invariant |
| `TcpSegments.ExpireKeepsRun` | SW_stub/lwtcp/tcp.c:459-480 | moving all but the first unacknowledged segment back keeps both runs and the number of buffers |
| `TcpSend.WriteBalances` | SW_stub/lwtcp/tcp_output.c:284-288 | a write leaves `snd_buf` plus the numbers outstanding at whatever they add up to, in 16-bit arithmetic |
| `TcpSend.AckBalances` | SW_stub/lwtcp/tcp_input.c:666-672 | so does an acknowledgement, although `acked` is truncated to 16 bits |
| `TcpSend.AnswerBalances` | SW_stub/lwtcp/tcp_input.c:448-460 | the answer to the SYN lowers that sum by exactly one, as the number is not returned to `snd_buf` |
| `TcpSend.AnswerInv` | SW_stub/lwtcp/tcp_input.c:448-460 | the answer to the SYN keeps the invariant if and only if the segment it takes off has one number, as a SYN has |
| `TcpSend.ConnectedInv` | SW_stub/lwtcp/tcp.c:399-423 | which states a connect call leaves in order, with and without memory for the SYN |
| `TcpSend.ActivelyOpened` | SW_stub/lwtcp/tcp_input.c:448-460 | an actively opened connection keeps the invariant, with one number of buffer space gone for good |
| `TcpSegments.CutNoEmpty` | SW_stub/lwtcp/tcp_output.c:145-249 | a write is cut into segments none of which is empty if and only if it has data, SYN or FIN |
| `TcpSegments.JoinedNoEmpty` | SW_stub/lwtcp/tcp_output.c:252-283 | queueing leaves an empty segment behind if and only if the first new one is empty and joins no other |
| `TcpSend.SendLeaks` | SW_stub/lwtcp/tcp_output.c:427-438 | sending keeps `snd_queuelen` in step with the queued buffers if and only if the segment is not empty |
| `TcpSend.LeakExample` | SW_stub/lwtcp/tcp_output.c:427-438 | an empty segment without SYN or FIN, queued and sent: nothing is queued, and its buffers are still counted |
| `TcpSend.Sender.constructor` | SW_stub/lwtcp/tcp.c:698-729 | a new connection has empty queues and the whole buffer space, and keeps the invariant |
| `TcpSend.Sender.Connect` | SW_stub/lwtcp/tcp.c:381-424 | the SYN is the one segment sent; the queues are right if and only if the new initial number is not behind `snd_max`, which is not reset; what a call without memory leaves |
| `TcpSend.Sender.Answer` | SW_stub/lwtcp/tcp_input.c:448-460 | exactly which answer is taken, and the state it leaves: one segment and one number less, established, the sum lower by one |
| `TcpSend.Sender.Build` | SW_stub/lwtcp/tcp_output.c:142-249 | the segments are the cut of the write, and building fails exactly when memory or the queue limit does not suffice |
| `TcpSend.Sender.Attach` | SW_stub/lwtcp/tcp_output.c:252-304 | the unsent list becomes the old one joined with the new segments, which `JoinedExact` spells out |
| `TcpSend.Sender.Commit` | SW_stub/lwtcp/tcp_output.c:252-304 | the new queues, `snd_lbb`, `snd_buf` and queue length, and the invariant |
| `TcpSend.Sender.Enqueue` | SW_stub/lwtcp/tcp_output.c:97-324 | all of the write is queued and the stream grows by it, or ERR_MEM is returned and nothing changes; which of the two is decided exactly; if no unsent segment exceeded `mss` before, none does afterwards |
| `TcpSend.Sender.Write` | SW_stub/lwtcp/tcp_output.c:81-95 | ERR_CONN exactly outside the four sending states; an empty write succeeds; the stream grows exactly on success |
| `TcpSend.Sender.SendFirst` | SW_stub/lwtcp/tcp_output.c:413-439 | what one round sends, where the segment goes, and the new `snd_nxt` and `snd_max` |
| `TcpSend.Sender.Flush` | SW_stub/lwtcp/tcp_output.c:401-440 | exactly the longest prefix of `unsent` that fits the window leaves, in order, and stands at the end of `unacked`; buffers leak if and only if one of them is empty |
| `TcpSend.Sender.Output` | SW_stub/lwtcp/tcp_output.c:327-442 | a pending acknowledgement goes alone; otherwise the list is flushed; every segment sent is faithful to the stream, keeps its number and data, and carries ACK once the SYN is answered |
| `TcpSend.Sender.Rexmit` | SW_stub/lwtcp/tcp_output.c:502-551 | what goes out again carries the first unacknowledged number, has been sent before, and has the octets written there; nothing goes exactly when it reaches past the window |
| `TcpSend.Sender.Expire` | SW_stub/lwtcp/tcp.c:459-480 | the concatenation of the two lists is unchanged, one segment stays unacknowledged, and the invariant is kept |
| `TcpSend.Sender.AcceptAck` | SW_stub/lwtcp/tcp_input.c:649-754 | exactly the covered segments leave, `snd_buf` grows by the acknowledged count, and the invariant is kept unless it is the half turn |
| `TcpSend.Sender.Ack` | SW_stub/lwtcp/tcp_input.c:624-754 | new data, duplicate and stale acknowledgements, with one fast retransmission on the third duplicate |
| `TcpSend.Sender.Hear` | SW_stub/lwtcp/tcp_input.c:445-470 | an acknowledgement as the state directs: an answer to the SYN, or exactly how far the mark moves |
| `TcpSend.Sender.Step` | SW_stub/lwtcp/tcp_output.c:97-442 | one event of a run: what each event does to mark, stream, sum, state and segment size; `snd_nxt` stays the first unsent number if and only if no acknowledgement covers all of an unsent list |
| `TcpSend.Sender.Perform` | SW_stub/lwtcp/tcp_output.c:97-442 | every run of writes, control segments, transmissions, time-outs, acknowledgements, changes of state and offers of a segment size, of connections opened from either side, keeps the invariant, up to a half-turn acknowledgement; the sum of `snd_buf` and outstanding numbers changes only by one when the SYN is answered; if every control segment has SYN or FIN, `snd_queuelen` is the number of queued buffers throughout; no segment is ever longer than the largest segment size |
| `TcpReceive.PlacedSorted` | SW_stub/lwtcp/tcp_input.c:963-1052 | placing a segment keeps the out-of-order queue sorted and free of overlaps if and only if the segment does not overrun the successor of the one it replaces |
| `TcpReceive.PlacedCovers` | SW_stub/lwtcp/tcp_input.c:963-1052 | exactly which sequence numbers the queue holds afterwards |
| `TcpReceive.PlacedCutFrom` | SW_stub/lwtcp/tcp_input.c:963-1052 | trimming in both directions leaves every queued segment a piece of the same stream |
| `TcpReceive.Close` | SW_stub/lwtcp/tcp_input.c:965-1049 | all comparisons in the walk along the queue mean what they say |
| `TcpReceive.Place` | SW_stub/lwtcp/tcp_input.c:948-1053 | the walk, with its four cases and with failing allocation, places the segment by rank, trimming it and its predecessor |
| `TcpReceive.DrainKeeps` | SW_stub/lwtcp/tcp_input.c:910-936 | draining hands up exactly the stretch of the stream it moves over and leaves a sorted queue strictly beyond it |
| `TcpReceive.DrainExact` | SW_stub/lwtcp/tcp_input.c:910-936 | the drain stops at the first number the queue does not cover, hands up the queued bytes before it and leaves the segments past it |
| `TcpReceive.InOrderKeeps` | SW_stub/lwtcp/tcp_input.c:863-936 | an in-order segment hands up exactly the stream from `rcv_nxt` to the new `rcv_nxt` |
| `TcpReceive.ReachMeans` | SW_stub/lwtcp/tcp_input.c:817-863 | the trimming and window tests mean what they say for every 32-bit sequence number |
| `TcpReceive.ArriveSorted` | SW_stub/lwtcp/tcp_input.c:788-1057 | any segment keeps the queue sorted if and only if it does not overrun |
| `TcpReceive.ArriveKeeps` | SW_stub/lwtcp/tcp_input.c:788-1057 | a segment of the stream keeps delivery exact if and only if it does not overrun |
| `TcpReceive.ArriveInOrder` | SW_stub/lwtcp/tcp_input.c:817-936 | a segment with the next byte and an open window: `rcv_nxt` moves to the first number that neither the queue nor the segment up to the queue covers; exactly those bytes are handed up, the window falls by as many but not below 0, and the queue keeps what lies past |
| `TcpReceive.ArriveAhead` | SW_stub/lwtcp/tcp_input.c:940-1053 | a segment ahead and inside the window hands up nothing and is queued if there is memory; exactly which numbers the queue then holds |
| `TcpReceive.ArriveIdle` | SW_stub/lwtcp/tcp_input.c:817-863 | any other segment changes nothing |
| `TcpReceive.StepSorted` | SW_stub/lwtcp/tcp_input.c:788-1057 | every event of a run keeps the queue sorted, unless a segment overruns |
| `TcpReceive.FeedDelivers` | SW_stub/lwtcp/tcp_input.c:788-1057 | in every run of arrivals in any order, window openings and discards, the bytes handed up are exactly the stream prefix that ends at `rcv_nxt` |
| `TcpReceive.Completes` | SW_stub/lwtcp/tcp_input.c:788-1057 | from every state a run of further arrivals, with the window opened when it is closed, hands up the whole stream |
| `TcpReceive.OverrunExample` | SW_stub/lwtcp/tcp_input.c:970-983 | a segment that overruns leaves a queue that overlaps itself |
| `TcpReceive.Receiver.constructor` | SW_stub/lwtcp/tcp.c:698-729 | a new receiver has an empty queue and the full window |
| `TcpReceive.Receiver.Drain` | SW_stub/lwtcp/tcp_input.c:910-936 | the loop hands up the queued segments now in order and leaves the rest; the window shrinks without underflow |
| `TcpReceive.Receiver.Deliver` | SW_stub/lwtcp/tcp_input.c:863-936 | the in-order branch, trimming included, is the arrival step, which `ArriveInOrder` decides number by number |
| `TcpReceive.Receiver.Receive` | SW_stub/lwtcp/tcp_input.c:788-1057 | the whole data path on 32-bit numbers is the arrival step on the integers they stand for, which `ArriveInOrder`, `ArriveAhead` and `ArriveIdle` decide; the queue stays valid if and only if the segment does not overrun |
| `TcpReceive.Receiver.Recved` | SW_stub/lwtcp/tcp.c:322-335 | the window opens by the amount consumed up to its limit, never beyond; the 16-bit sum is right if and only if it does not wrap, and the window shrinks if and only if it does |
| `TcpReceive.Receiver.Discard` | SW_stub/lwtcp/tcp.c:509-516 | the queue is dropped and nothing else changes |
| `TcpReceive.Receiver.Perform` | SW_stub/lwtcp/tcp_input.c:788-1057 | a whole run on 32-bit numbers is the run on integers and hands up exactly the stream, up to a segment that overruns or is half a turn away |
| `PcbLists.OneList` | SW_stub/lwtcp/lwip/tcp.h:339-345 | a sane block is on at most one list, and its state says on which |
| `PcbLists.Rmv` | SW_stub/lwtcp/lwip/tcp.h:384-394 | removal leaves the list without the block, in order |
| `PcbLists.WithoutMeans` | SW_stub/lwtcp/lwip/tcp.h:384-394 | a list without a block has every other member once |
| `PcbLists.FrontKeeps` | SW_stub/lwtcp/tcp_input.c:138-203 | a block moves to the front, the others keep their order, and the members are the same, each once |
| `PcbLists.Demultiplexes` | SW_stub/lwtcp/tcp_input.c:146-191 | a block with a peer answers exactly the segments of its connection; a listener those for its port at its address, or at any if it has none |
| `PcbLists.DropSane` | SW_stub/lwtcp/tcp.c:974-991 | removing and freeing a block keeps the lists sane |
| `PcbLists.ToTimeWaitSane` | SW_stub/lwtcp/tcp_input.c:329-575 | so does moving an active block to TIME-WAIT |
| `PcbLists.AddActiveSane` | SW_stub/lwtcp/lwip/tcp.h:380-383 | so does registering a block as active |
| `PcbLists.ProcessEdges` | SW_stub/lwtcp/tcp_input.c:329-575 | processing a segment takes at most one arrow of the state diagram in section 3.2 of RFC 793, and two, from FIN-WAIT-1 to TIME-WAIT, if and only if the segment has a FIN and acknowledges the own one; only LAST-ACK ends in CLOSED, and a reset changes no state |
| `PcbLists.ProcessExact` | SW_stub/lwtcp/tcp_input.c:329-575 | every arrow is taken if and only if the flags and numbers of the segment call for it (section 3.9 of RFC 793); exactly when a block is reset, freed by the last acknowledgement, or aborted |
| `PcbLists.RstMeans` | SW_stub/lwtcp/tcp_input.c:349-366 | a reset is acceptable if and only if it acknowledges the SYN or its number is in the window or one past it |
| `PcbLists.NewAckMeans` | SW_stub/lwtcp/tcp_input.c:476-477 | the two tests in SYN-RECEIVED admit exactly the numbers past the last acknowledgement up to what was sent |
| `PcbLists.FinExample` | SW_stub/lwtcp/tcp_input.c:504-509 | a FIN past the window closes a connection |
| `PcbLists.CloseEdges` | SW_stub/lwtcp/tcp.c:147-199 | closing takes at most one arrow of that diagram |
| `PcbLists.CloseExact` | SW_stub/lwtcp/tcp.c:147-199 | close takes an arrow if and only if its FIN could be queued, to FIN-WAIT-1 or to LAST-ACK |
| `PcbLists.DeliveredFollows` | SW_stub/lwtcp/tcp_input.c:238-314 | a segment moves its block along at most two arrows and no other block |
| `PcbLists.DeliveredExact` | SW_stub/lwtcp/tcp_input.c:238-314 | whether the block goes, which arrow it takes and to which list; every other block stays as and where it is |
| `PcbLists.IdleExact` | SW_stub/lwtcp/tcp.c:815-816 | the time a block is taken to have been idle is that time if and only if it was last touched in the first 65536 ticks, as the stamp has 16 bits |
| `PcbLists.IdleOrder` | SW_stub/lwtcp/tcp.c:815-816 | of two blocks the one with the lower stamp is taken for the one idle longer; it is, if and only if it was not touched in a later turn of the stamp |
| `PcbLists.LongestIsOldest` | SW_stub/lwtcp/tcp.c:812-824 | the block reclaimed has truly been idle longest if and only if no active block was last touched in an earlier turn of the stamp |
| `PcbLists.ReclaimExample` | SW_stub/lwtcp/tcp.c:812-824 | two blocks touched in different turns, of which the one idle less would be reclaimed |
| `PcbLists.ExpiredExact` | SW_stub/lwtcp/tcp.c:498-573 | a waiting block expires if and only if its time is up or it was last touched after the first 65536 ticks |
| `PcbLists.ExpiredExample` | SW_stub/lwtcp/tcp.c:520-573 | blocks in TIME-WAIT and SYN-RECEIVED that expire one tick after they were touched |
| `PcbLists.GivesUp` | SW_stub/lwtcp/tcp.c:454-458 | a block that does not wait for the peer goes exactly after twelve retransmissions, or four of its SYN |
| `PcbLists.Stack.constructor` | SW_stub/lwtcp/tcp.c:88-115 | the empty lists are sane |
| `PcbLists.Stack.Delete` | SW_stub/lwtcp/tcp.c:974-991 | exactly the block leaves its list and is freed |
| `PcbLists.Stack.Close` | SW_stub/lwtcp/tcp.c:147-199 | what close does in each state, and that the lists stay sane |
| `PcbLists.Stack.Abort` | SW_stub/lwtcp/tcp.c:210-246 | the block is dropped whatever its state |
| `PcbLists.Stack.Connect` | SW_stub/lwtcp/tcp.c:381-424 | a fresh block becomes active in SYN-SENT |
| `PcbLists.Stack.Listen` | SW_stub/lwtcp/tcp.c:301-311 | a fresh block is replaced by a listener, or without memory stays in LISTEN; every block is registered if and only if there was memory |
| `PcbLists.ListenExample` | SW_stub/lwtcp/tcp.c:301-311 | a block that is in LISTEN and on no list |
| `PcbLists.Stack.New` | SW_stub/lwtcp/tcp.c:698-729 | a new block is CLOSED and on no list |
| `PcbLists.Stack.Reclaim` | SW_stub/lwtcp/tcp.c:776-836 | exactly which block goes: the first in TIME-WAIT, or else the first of the active blocks that look idle longest, none if none looks idle; it has truly been idle longest if and only if no active block was last touched in an earlier turn of the stamp |
| `PcbLists.Stack.Lookup` | SW_stub/lwtcp/tcp_input.c:138-203 | the first block on a list that the segment matches |
| `PcbLists.Stack.Input` | SW_stub/lwtcp/tcp_input.c:138-314 | to which block a segment goes, what it does there, which `DeliveredExact` decides, which list is reordered, and that every state change is an edge of the diagram |
| `PcbLists.Stack.Spawn` | SW_stub/lwtcp/tcp_input.c:329-575 | a SYN to a listener adds exactly one block in SYN-RECEIVED, if there is memory |
| `PcbLists.Stack.Deliver` | SW_stub/lwtcp/tcp_input.c:238-314 | the state after processing, which `DeliveredExact` decides, with the move to TIME-WAIT or the removal that follows |
| `PcbLists.SweptMeans` | SW_stub/lwtcp/tcp.c:434-598 | a sweep along a list removes exactly the expired blocks of the part it has passed and keeps the lists sane |
| `PcbLists.Stack.SweepActive` | SW_stub/lwtcp/tcp.c:434-547 | the loop over the active list, which unlinks as it goes, removes exactly the expired blocks |
| `PcbLists.Stack.SweepTw` | SW_stub/lwtcp/tcp.c:564-597 | so does the loop over the TIME-WAIT list |
| `PcbLists.Stack.SlowTimer` | SW_stub/lwtcp/tcp.c:434-598 | after a tick exactly the expired blocks are gone, in terms of the true ticks since they were touched, and no other block changed state or list; the variables of active blocks are those that retransmission leaves |
| `PcbLists.Stack.Perform` | SW_stub/lwtcp/tcp.c:1131-1147 | every run of arrivals, ticks and calls keeps the lists sane, and loses a block from them only by a listen call without memory |
| `PcbLists.ActiveLife` | SW_stub/lwtcp/tcp_input.c:445-545 | on any stack, connect, the answer to the SYN, close, the acknowledgement of the FIN and the FIN of the peer lead a block through SYN-SENT, ESTABLISHED, FIN-WAIT-1 and FIN-WAIT-2 to the front of the TIME-WAIT list, and change nothing else |
| `PcbLists.BothClose` | SW_stub/lwtcp/tcp_input.c:512-557 | two closes at once lead over CLOSING to TIME-WAIT |
| `PcbLists.PassiveLife` | SW_stub/lwtcp/tcp_input.c:396-566 | a SYN to a listener, its acknowledgement, a FIN, close and the last acknowledgement lead a new block through SYN-RECEIVED, ESTABLISHED, CLOSE-WAIT and LAST-ACK; then the stack is as it was |
| `PcbLists.WaitLasts` | SW_stub/lwtcp/tcp.c:498-597 | a block just touched in TIME-WAIT is freed after 241 ticks, in FIN-WAIT-2 or SYN-RECEIVED after 41, if that was in the first 65536 ticks, and else after one |
| `ShortestPath.MinDistance` | SW_stub/djikstra.c:98-107 | an unvisited vertex at the least tentative distance is always found, the last such one |
| `ShortestPath.FrontierBound` | SW_stub/djikstra.c:318-332 | no walk to an unvisited vertex is shorter than the nearest tentative distance |
| `ShortestPath.RoundKeeps` | SW_stub/djikstra.c:318-332 | a round of the main loop keeps the invariant |
| `ShortestPath.RelaxFrom` | SW_stub/djikstra.c:323-330 | the inner loop relaxes exactly the edges out of the vertex |
| `ShortestPath.Reset` | SW_stub/djikstra.c:301-315 | the start of a search: everything unvisited and unreachable but the source |
| `ShortestPath.Round` | SW_stub/djikstra.c:318-332 | one more vertex is visited and the invariant holds for one more round |
| `ShortestPath.Distances` | SW_stub/djikstra.c:301-332 | for every graph and source, each entry is the length of a shortest walk, INT_MAX exactly when there is none |
| `ShortestPath.DistUnique` | SW_stub/djikstra.c:301-332 | the distance is determined by the graph and the source |
| `ShortestPath.MergeStep` | SW_stub/djikstra.c:334-338 | merging by strict minimum keeps the minimum over the sources and the lowest source that attains it |
| `ShortestPath.BestUnique` | SW_stub/djikstra.c:334-338 | minimum and lowest source are determined by the graph |
| `ShortestPath.ShortestAvoidsSources` | SW_stub/djikstra.c:334-356 | a shortest walk from the chosen source passes through no other source |
| `RouteTable.IndexOf` | SW_stub/dataqueue.c:217-223 | the first position of an entry, -1 exactly when it is missing |
| `RouteTable.AnnouncedMeans` | SW_stub/djikstra.c:155-220 | what is gathered is exactly the own announcement of every interface and everything any neighbour of an interface has announced |
| `RouteTable.NextHopMeans` | SW_stub/djikstra.c:197-199 | the next hop of an interface is its last immediate neighbour that has announced something, 0 if there is none |
| `RouteTable.KnownMeans` | SW_stub/djikstra.c:155-220 | the gathered subnets and announcements have no repeats and are exactly those of the sequence gathered, which `AnnouncedMeans` describes |
| `RouteTable.Gather` | SW_stub/djikstra.c:155-220 | the nested loops gather exactly what is announced, and the next hop of every interface |
| `RouteTable.Mark` | SW_stub/djikstra.c:249-283 | one pair of announcements makes its two subnets adjacent if one router announces both |
| `RouteTable.BuildGraph` | SW_stub/djikstra.c:222-286 | the edges of the matrix are exactly the pairs of subnets that one router announces |
| `RouteTable.PairsAreAdjacent` | SW_stub/djikstra.c:232-286 | the triangular double loop over announcements meets every such pair |
| `RouteTable.Merge` | SW_stub/djikstra.c:334-356 | distance, interface and next hop after merging one more interface |
| `RouteTable.Search` | SW_stub/djikstra.c:299-358 | after all interfaces, every subnet has its least distance, lowest interface and next hop |
| `RouteTable.Routes` | SW_stub/djikstra.c:379-419 | the dynamic entries are exactly the routes to reached subnets not on the chosen interface |
| `RouteTable.SortByMask` | SW_stub/djikstra.c:109-117 | the sorted entries are a permutation ordered by netmask |
| `RouteTable.Install` | SW_stub/djikstra.c:454-461 | the new table has exactly the entries, each once, ordered by netmask |
| `RouteTable.Router.KeepStatics` | SW_stub/djikstra.c:424-450 | exactly the static entries are kept |
| `RouteTable.Router.Recompute` | SW_stub/djikstra.c:133-479 | in terms of what interfaces and neighbours announce: the new table holds exactly the old static entries and, for every subnet, the route over the first interface from which a way over routers on both subnets is shortest, with its length and next hop; sorted and without repeats |
| `RouteTable.RebuiltIsRouted` | SW_stub/djikstra.c:133-479 | the routes computed over numbered subnets are those over the announced subnets |
| `RouteTable.BestIsShortest` | SW_stub/djikstra.c:334-356 | the minimum over the matrix is the minimum over ways through announced subnets |
| `RouteTable.ShortestIsBest` | SW_stub/djikstra.c:334-356 | and the other way round |
| `RouteTable.OneRoutePerSubnet` | SW_stub/djikstra.c:379-419 | a subnet has at most one dynamic route |
| `RouteTable.RoutedIffReached` | SW_stub/djikstra.c:379-419 | after a recomputation, a subnet off all interfaces has a dynamic route in the table if and only if some interface reaches it |
| `RouteTable.RouteIsShortest` | SW_stub/djikstra.c:334-419 | the metric of a dynamic route is the length of a shortest walk from its interface, and no such walk visits an own subnet again |
| `RouteTable.RecomputeIdempotent` | SW_stub/djikstra.c:421-461 | recomputing with nothing changed gives the same routes |
| `PrefixMatch.LongestPrefixMatch` | SW_stub/ip.c:145-177 | for any masks, the first of the matching entries with the greatest non-zero mask word, -1 exactly when there is none; the signed variable compares as unsigned |
| `PrefixMatch.MatchMeans` | SW_stub/ip.c:164-164 | the test on byte-reversed words says that the addresses agree on the bits of the prefix |
| `PrefixMatch.MaskOrder` | SW_stub/ip.c:165-165 | byte-reversed contiguous masks are ordered as their prefix lengths |
| `PrefixMatch.MaskValue` | SW_stub/ip.c:165-165 | what word the host reads for a prefix of any length |
| `PrefixMatch.LongestPrefix` | SW_stub/ip.c:145-177 | for contiguous masks the answer is the first matching entry of greatest prefix length (section 5.2.4.3 of RFC 1812), in both directions |
| `PrefixMatch.AnswerUnique` | SW_stub/ip.c:145-177 | there is one answer |
| `PrefixMatch.DefaultRouteUnused` | SW_stub/ip.c:148-165 | no entry is found exactly when every matching entry is a default route or there is none |
| `PrefixMatch.DefaultRouteExample` | SW_stub/ip.c:148-165 | a table with a matching default route in which nothing is found |
| `Heap.PayloadsDisjoint` | SW_stub/lwtcp/mem.c:189-261 | live payloads are inside the heap and disjoint from each other and from all headers |
| `Heap.AllFreed` | SW_stub/lwtcp/mem.c:92-124 | when everything is freed the heap is one block again |
| `Heap.SplitChain` | SW_stub/lwtcp/mem.c:215-226 | splitting a block keeps the doubly linked partition |
| `Heap.SplitLive` | SW_stub/lwtcp/mem.c:215-226 | splitting makes exactly that block live, with the requested size |
| `Heap.AbsorbChain` | SW_stub/lwtcp/mem.c:102-122 | absorbing a successor keeps the doubly linked partition |
| `Heap.AbsorbLive` | SW_stub/lwtcp/mem.c:102-122 | absorbing changes no live allocation |
| `Heap.ReleaseKeeps` | SW_stub/lwtcp/mem.c:285-293 | marking a block free ends exactly its allocation and leaves at most its own neighbours to merge |
| `Heap.RoundedMeans` | SW_stub/lwtcp/mem.c:199-203 | rounding gives an aligned size not below the request, exactly when the 32-bit addition does not wrap |
| `Heap.Allocator.constructor` | SW_stub/lwtcp/mem.c:126-154 | one free block |
| `Heap.Allocator.PlugForward` | SW_stub/lwtcp/mem.c:102-112 | a free successor is absorbed; allocations, hint and links stay right |
| `Heap.Allocator.PlugBackward` | SW_stub/lwtcp/mem.c:114-122 | a free predecessor absorbs the block, and no two neighbours are free |
| `Heap.Allocator.PlugHoles` | SW_stub/lwtcp/mem.c:92-124 | after merging no two neighbours are free and no allocation has changed |
| `Heap.Allocator.AdvanceHint` | SW_stub/lwtcp/mem.c:240-246 | the hint moves to the next free block, past used ones only |
| `Heap.Allocator.FirstFit` | SW_stub/lwtcp/mem.c:211-254 | the first block from the hint on that fits, or none |
| `Heap.Allocator.Malloc` | SW_stub/lwtcp/mem.c:189-261 | the lowest block that fits becomes exactly one new allocation; NULL exactly when the size is zero or too large or nothing fits; everything is kept on failure |
| `Heap.FirstMalloc` | SW_stub/lwtcp/mem.c:189-261 | a new heap serves exactly the requests that leave room for two headers, and the three largest, which are rounded to 0 |
| `Heap.Allocator.Take` | SW_stub/lwtcp/mem.c:213-246 | taking a fitting block adds one allocation and keeps the hint lowest |
| `Heap.Allocator.Free` | SW_stub/lwtcp/mem.c:263-304 | exactly that allocation ends and the hint stays lowest; a null pointer changes nothing; one out of range changes no block but leaves the semaphore taken |
| `Heap.Allocator.Release` | SW_stub/lwtcp/mem.c:285-303 | freeing a live block merges its neighbours and keeps the hint lowest |
| `Heap.Allocator.Realloc` | SW_stub/lwtcp/mem.c:319-362 | a block is cut down exactly when that frees a header and the least size; when the hint stays lowest, the blocks aligned and the semaphore free, exactly |
| `Heap.Allocator.CutDown` | SW_stub/lwtcp/mem.c:347-359 | the allocation shrinks to the new size and the rest is merged |
| `Heap.ReallocExample` | SW_stub/lwtcp/mem.c:347-359 | two allocations of which the first is cut down to 10 bytes: a free block lies below the hint, and is not aligned |
| `Checksum.FoldedSum` | SW_stub/lwtcp/inet.c:119-121 | saving up the carries and folding them is one's-complement addition (section 2 of RFC 1071) |
| `Checksum.ByteOrder` | SW_stub/globals.c:10-15 | sums in the two byte orders differ by a factor of 256 modulo 65535, exactly |
| `Checksum.SumConcat` | SW_stub/lwtcp/inet.c:98-107 | the sum of two buffers end to end; after an odd one the next is shifted by a byte |
| `Checksum.AccumulateStep` | SW_stub/lwtcp/inet.c:99-106 | one buffer of a chain, with the swap after an odd length, takes the accumulator to the sum of all bytes so far, which `SumConcat` gives |
| `Checksum.Chksum` | SW_stub/lwtcp/inet.c:63-80 | the sum of the little-endian words, with no overflow for 16-bit lengths |
| `Checksum.Fold` | SW_stub/lwtcp/inet.c:137-139 | folding to the end gives the one's-complement residue |
| `Checksum.InetChksum` | SW_stub/lwtcp/inet.c:131-141 | the complement of the one's-complement sum, exactly |
| `Checksum.InetChksumPseudo` | SW_stub/lwtcp/inet.c:87-123 | for every chain of buffers, odd and empty ones too, exactly the checksum of the pseudo-header and the flat bytes |
| `Checksum.SumBigEndian` | SW_stub/globals.c:8-15 | the sum of the big-endian words, modulo 2^32 |
| `Checksum.TwoFolds` | SW_stub/globals.c:17-18 | two folds suffice for every 32-bit sum |
| `Checksum.WrapLoses` | SW_stub/globals.c:10-15 | a sum that has wrapped at 32 bits fewer than 65535 times has the right residue if and only if it has not wrapped |
| `Checksum.GenerateChecksum` | SW_stub/globals.c:5-21 | for every length an int can give, the complement of the one's-complement sum of the big-endian words, in host order, if and only if the words sum to less than 2^32, as they do up to 131072 bytes |
| `Checksum.OnesExample` | SW_stub/globals.c:5-21 | of buffers of 0xFF bytes those of up to 131074 get the right checksum, and longer ones a wrong one |
| `Checksum.Agree` | SW_stub/globals.c:5-21 | the two implementations agree on every buffer |
| `Checksum.StoredVerifies` | SW_stub/globals.c:5-21 | with the checksum stored in a zeroed aligned field, the checksum of the whole is zero |
| `Mailbox.RingStep` | SW_stub/lwtcp/sys_arch.c:202-273 | a step keeps the ring equal to the undelivered messages if and only if it is not the hundredth |
| `Mailbox.ExclusiveStep` | SW_stub/lwtcp/sys_arch.c:202-273 | at most one thread is inside the mutex |
| `Mailbox.LocalStep` | SW_stub/lwtcp/sys_arch.c:202-273 | what each thread remembers stays true while it holds the mutex |
| `Mailbox.AwakeStep` | SW_stub/lwtcp/sys_arch.c:213-226 | while the fetcher is going to wait or waits, a non-empty ring means a signal given or due |
| `Mailbox.StepKeeps` | SW_stub/lwtcp/sys_arch.c:202-273 | a step keeps the whole invariant if and only if it is not the hundredth undelivered message, which makes the full ring look empty |
| `Mailbox.RunKeeps` | SW_stub/lwtcp/sys_arch.c:202-273 | every interleaved run keeps it |
| `Mailbox.DeliveredInOrder` | SW_stub/lwtcp/sys_arch.c:202-273 | in every run the delivered messages are a prefix of the posted ones, and the ring holds the rest in order |
| `Mailbox.NoLostWakeup` | SW_stub/lwtcp/sys_arch.c:241-258 | in every run a fetcher that waits beside a message can go on, or the poster that found the ring empty is about to signal |
| `Mailbox.HolderCanStep` | SW_stub/lwtcp/sys_arch.c:341-376 | in every reachable state in which the mutex is taken, the thread that holds it can take its next step |
| `Mailbox.HolderLeaves` | SW_stub/lwtcp/sys_arch.c:202-273 | the thread inside gives up the mutex after at most five of its own steps: each lowers a count that is 0 exactly when the mutex is free, and no other thread raises it |
| `Mailbox.StepLowers` | SW_stub/lwtcp/sys_arch.c:202-273 | every step of any thread, other than a new post or a time-out, lowers one measure |
| `Mailbox.StuckIsDone` | SW_stub/lwtcp/sys_arch.c:202-273 | when no such step can be taken everything posted has been delivered, nobody is inside and the fetcher waits |
| `Mailbox.AllDelivered` | SW_stub/lwtcp/sys_arch.c:202-273 | after any run, every schedule without new posts and time-outs ends after a bounded number of steps, with everything delivered in order |
| `Mailbox.PostOne` | SW_stub/lwtcp/sys_arch.c:202-230 | a post on its own adds its message behind the others and releases the mutex |
| `Mailbox.FetchOne` | SW_stub/lwtcp/sys_arch.c:232-273 | a fetch on its own, with a message in the ring, returns the oldest one and releases the mutex |
| `Mailbox.FullExample` | SW_stub/lwtcp/sys_arch.c:202-230 | a run from a new mailbox in which the hundredth message makes the full ring look empty |
| `Timeouts.Spliced` | SW_stub/lwtcp/sys.c:172-186 | splitting the distance in front of an entry moves no other deadline |
| `Timeouts.ArmKeeps` | SW_stub/lwtcp/sys.c:150-191 | one more timer keeps the order of what has run and what is to run on the clock of the list, ties in arming order |
| `Timeouts.FireKeeps` | SW_stub/lwtcp/sys.c:68-80 | the first timer runs at its deadline on the clock of the list |
| `Timeouts.DrawNearer` | SW_stub/lwtcp/sys.c:81-90 | time passing lowers all deadlines alike |
| `Timeouts.LatenessExact` | SW_stub/lwtcp/sys.c:62-90 | in every state a thread can be in, a handler has run late by what the lag of the list behind the real clock has risen since it was armed; so early if and only if the lag has fallen |
| `Timeouts.SemWait` | SW_stub/lwtcp/sys_arch.c:304-366 | a timed wait reports its last wait for the condition, 1 if there was none and 0 only after the time-out; more than it took if and only if it took nothing |
| `Timeouts.FetchWait` | SW_stub/lwtcp/sys_arch.c:232-273 | the same of a timed fetch, however often the box is found empty; with a message waiting it reports 1 and takes nothing |
| `Timeouts.CountedExact` | SW_stub/lwtcp/sys.c:62-90 | the list counts more than a wait took if and only if the wait took nothing |
| `Timeouts.OutOfOrder` | SW_stub/lwtcp/sys.c:85-89 | of two timers the one that runs first is due later if and only if it was armed with a lag greater by more than their distance on the clock of the list, or by just that and armed later |
| `Timeouts.InTime` | SW_stub/lwtcp/sys.c:85-89 | timers armed with one lag run in the order of their true deadlines |
| `Timeouts.OutlastExample` | SW_stub/lwtcp/sys.c:85-89 | a wait of 50 outlasts a timer of 10, and a timer due at 55 then runs before one due at 30 |
| `Timeouts.EarlyExample` | SW_stub/lwtcp/sys_arch.c:235-272 | a timer of 1, a fetch with a message waiting and a second fetch: the handler runs at time 0 |
| `Timeouts.Thread.constructor` | SW_stub/lwtcp/sys.c:57-59 | no timer is armed |
| `Timeouts.Thread.Find` | SW_stub/lwtcp/sys.c:177-187 | the walk stops behind all deadlines that are not later, without 16-bit underflow |
| `Timeouts.Thread.Splice` | SW_stub/lwtcp/sys.c:165-189 | the list surgery inserts one deadline and moves no other |
| `Timeouts.Thread.Arm` | SW_stub/lwtcp/sys.c:150-191 | the new deadline goes behind all that are not later; without memory nothing happens |
| `Timeouts.Thread.Pass` | SW_stub/lwtcp/sys.c:46-93 | the first handler runs or a message has come; all other distances shrink by one amount, for every reported and true duration of the wait; when and with what lag the handler ran |
| `Timeouts.Thread.Perform` | SW_stub/lwtcp/sys.c:95-148 | in every run handlers have run in the order of the clock of the list, ties in arming order, each late by exactly the rise of the lag since it was armed; none early if no wait has counted more than it took; in the order of the true deadlines if the lag has not changed |
| `PbufPool.OnePlace` | SW_stub/lwtcp/pbuf.c:111-174 | every pool buffer is free or in one place of one chain, exactly once |
| `PbufPool.MoreMeans` | SW_stub/lwtcp/pbuf.c:247-266 | the loop takes as many buffers as the size in whole buffers |
| `PbufPool.NeededMeans` | SW_stub/lwtcp/pbuf.c:200-266 | a chain takes the least number of buffers that hold the size and the room for headers |
| `PbufPool.CarvedMeans` | SW_stub/lwtcp/pbuf.c:239-262 | the room for headers stays free in the first buffer, and every buffer before the last is full |
| `PbufPool.JoinFits` | SW_stub/lwtcp/pbuf.c:559-567 | the 16-bit sum of two chain lengths does not wrap |
| `PbufPool.Pool.constructor` | SW_stub/lwtcp/pbuf.c:75-107 | all buffers are free |
| `PbufPool.Pool.Take` | SW_stub/lwtcp/pbuf.c:111-155 | the first free buffer, from the cache before the pool; none exactly when both are empty |
| `PbufPool.Pool.Alloc` | SW_stub/lwtcp/pbuf.c:194-305 | the chain takes the first free buffers, whose lengths add up to the size; it fails exactly when too few are free, and then loses none |
| `PbufPool.Pool.Push` | SW_stub/lwtcp/pbuf.c:342-347 | freed buffers stack up on the free cache |
| `PbufPool.Pool.Refresh` | SW_stub/lwtcp/pbuf.c:314-341 | the free cache goes to the end of the pool |
| `PbufPool.Pool.Ref` | SW_stub/lwtcp/pbuf.c:544-551 | one more reference |
| `PbufPool.Pool.FreeChain` | SW_stub/lwtcp/pbuf.c:470-517 | the last reference frees every buffer of the chain, and the count says how many; an earlier one frees none |
| `PbufPool.FindEnd` | SW_stub/lwtcp/pbuf.c:377-383 | the walk stops at the buffer on which the new end falls |
| `PbufPool.Pool.Realloc` | SW_stub/lwtcp/pbuf.c:360-432 | the chain keeps exactly the byte prefix of the new size, and the buffers past it are free again; a longer size changes nothing |
| `PbufPool.Pool.Join` | SW_stub/lwtcp/pbuf.c:559-567 | the joined chain carries both byte sequences, and its length is their sum |
| `StreamSearch.Search.constructor` | SW_stub/cli/search_state.c:9-23 | an empty buffer of the initial size |
| `StreamSearch.Search.GrowIfFull` | SW_stub/cli/search_state.c:29-59 | a full buffer doubles up to its limit with its contents kept; code 2 exactly when it is full at the limit |
| `StreamSearch.Search.MatchAt` | SW_stub/real_socket_helper.c:92-98 | the inner loop decides whether the word stands at an offset |
| `StreamSearch.Search.Scan` | SW_stub/real_socket_helper.c:91-104 | the first occurrence from the search offset on, or no offset left at which it fits |
| `StreamSearch.Carry` | SW_stub/real_socket_helper.c:91-106 | what was ruled out in the bytes arrived so far is ruled out in the whole stream |
| `StreamSearch.Search.Absorb` | SW_stub/real_socket_helper.c:91-107 | a pass over newly read bytes finds the first occurrence in the whole stream or rules out all that could have arrived |
| `StreamSearch.Search.ReadSome` | SW_stub/real_socket_helper.c:79-107 | a read of what fits, and nothing exactly at the end of the stream |
| `StreamSearch.Search.Find` | SW_stub/real_socket_helper.c:60-125 | however the stream is cut into reads: 0 gives the first occurrence at or after the old offset in the whole stream; any other code means none has arrived; -2 a buffer full at its limit, 1 the end of the stream, -1 a failed read, -3 the limit of reads; every read that could go through was made; if enough was offered, 0 is returned if and only if the word occurs |
| `DnsCodec.ReadName` | SW_stub/dns.c:41-57 | the loop over labels parses the name at an offset, or runs past the packet |
| `DnsCodec.ReadQuestions` | SW_stub/dns.c:33-63 | the outer loop parses that many questions |
| `DnsCodec.NameRoundTrip` | SW_stub/dns.c:22-57 | an encoded name parses back if every label has 1 to 255 bytes (section 3.1 of RFC 1035), and to another name or past the packet otherwise |
| `DnsCodec.Layout` | SW_stub/dns.c:22-31 | where each label and its length stand in the encoding, and the zero byte at its end (section 3.1 of RFC 1035) |
| `DnsCodec.LabelExamples` | SW_stub/dns.c:22-57 | an empty label and one of 256 bytes, both read back as the empty name |
| `DnsCodec.QuestionsRoundTrip` | SW_stub/dns.c:22-63 | an encoded question section parses back, ending where it ends, if and only if all its names can be encoded (section 4.1.2 of RFC 1035) |
| `DnsCodec.Reencode` | SW_stub/dns.c:41-57 | a parsed name encodes to the bytes that were read if and only if no label read holds a zero byte, and never to more |
| `DnsAnswer.EncodeName` | SW_stub/dns.c:22-31 | the encoding is written in place and nothing else is touched |
| `DnsAnswer.CalcTotalSize` | SW_stub/dns.c:130-136 | the size reserved is the number of bytes the encoding takes |
| `DnsAnswer.CountUp` | SW_stub/dns.c:153-153 | adding one to a count in network order, with wrap-around, changes nothing else in the packet |
| `DnsAnswer.Answer.constructor` | SW_stub/dns.c:112-128 | the packet is the header of a response with no items |
| `DnsAnswer.Answer.Reserve` | SW_stub/dns.c:149-153 | the packet grows and its header counts the item |
| `DnsAnswer.Answer.AddQuestion` | SW_stub/dns.c:138-164 | the packet is the message with one more question; the end-position assertion holds |
| `DnsAnswer.Answer.WriteFixed` | SW_stub/dns.c:187-193 | the fixed fields in the order of the wire, whatever the order of the stores |
| `DnsAnswer.Answer.AddGeneric` | SW_stub/dns.c:166-196 | a record up to its data, with exactly the reserved bytes left |
| `DnsAnswer.Answer.AddPtr` | SW_stub/dns.c:198-204 | the end-position assertion holds if and only if the encoded name fits in the 16-bit size; then the packet is the message with one more record, and otherwise one with too few bytes reserved, exactly how many |
| `DnsAnswer.PtrExample` | SW_stub/dns.c:198-204 | a name that can be encoded and does not fit; no caller passes one |
| `DnsAnswer.Answer.AddA` | SW_stub/dns.c:206-212 | the packet is the message with one more address record; the end-position assertion holds |
| `DnsAnswer.ReceiverReads` | SW_stub/dns.c:112-212 | of a message with its questions before its records, a receiver that trusts the header count parses exactly the questions, if and only if their number fits in 16 bits and all names can be encoded |
| `DnsRecords.HeaderReads` | SW_stub/dns.c:112-128 | the identifier, the response bit and the four counts as a receiver reads them |
| `DnsRecords.RecordRoundTrip` | SW_stub/dns.c:166-196 | a receiver reads back name, type, class, time to live and data of a record if and only if the name can be encoded and the length of the data fits in 16 bits (section 4.1.3 of RFC 1035) |
| `DnsRecords.ReceiverReadsRecords` | SW_stub/dns.c:112-212 | behind the questions a receiver that trusts the header count reads exactly the records, to the end of the packet, if and only if their number fits in 16 bits and each can be read back |
| `DnsRecords.DataReads` | SW_stub/dns.c:198-212 | the data of an address record is the address in network order, that of a pointer record the encoded name |

## Left out

- Sockets, device registers, the command line, packet capture, scripts and the hardware description: input, output and configuration.
- Locking of the queues of packets and routes, and mutual exclusion around the heap and the buffer pool; those runs are sequential.
- ARP, neighbour discovery and network-wide convergence of the link-state protocol.
- Parsing of TCP options (the segment size offered is an event), round-trip estimation, time-out backoff and the values of the congestion window; the window is a parameter.
- `tot_len` of a segment trimmed across several buffers, which the source leaves too large (`tcp_input.c`, lines 843-848): in the model a segment is its bytes.
- FIN flags on trimmed or queued segments of the receive side, and the flags of arriving segments there.
- In `PcbLists` the effect of the data path on a connection is a parameter; the queues are in `TcpSend` and `TcpReceive`.
- Update in place of linked lists: queues and block lists are sequences that the methods reassign, and the heap is a map from offset to header, so aliasing of list nodes is not captured.
- The mailbox is a state machine over values, with one fetcher; several fetchers are not modelled.
- `inet_chksum_pbuf`, which does not compute the flat checksum, and `dns_mallocandparse_other_array`, which nothing calls; records are read as RFC 1035 has it.
- Buffers outside the pool (the RAM and ROM kinds), `pbuf_header` and `pbuf_dechain`; payloads are byte sequences and headers are not part of them.
- Statistics counters, debug output, freeing of entries and of parsed names.
- Which of the entries with equal netmask comes first after sorting: the comparison (`djikstra.c`, lines 109-117) never says equal, and of two equal masks calls either one less, so the library sort leaves it open.
- Padding bytes of routing-table entries: entries are compared as values.
- Heap.Allocator.Realloc: covers new sizes below 2^32 - 24; above that the size test in the source wraps.
- PbufPool.Pool.Join: the second chain has no other reference, as its other holders would be left with freed buffers.
- DnsCodec.ReadName: a parse that runs past the packet is reported, where the source reads on in memory.
- StreamSearch.Search.Find: calls on a stream that never answers are cut off at the end of the given events; a count of reads below zero sets no limit.
- RouteTable.Router.Recompute: with no static and no dynamic entry the source sorts and frees an uninitialised pointer; the model has the empty list there.
- TcpSend.Sender.Connect: for a block fresh from allocation with no acknowledgement pending, as the source calls it.
