# Verified models of the network stack and the image loader

The program is a BIOS replacement that boots a kernel over the network: a TCP/IP stack (`lwip/`),
and the part of a network loader that places an ELF image in memory as its blocks arrive
(`etherboot/core/`).  This project models the parts of both that carry state and arithmetic, and
proves what they are for.  `dafny verify dfyconfig.toml` checks it.

Each part has the same shape.  A specification on values (sequences, sets, maps, unbounded positions)
states what an operation does, and lemmas prove of it what the protocol or the data structure
promises, up to whole runs.  A class beside it keeps the fields the program keeps (32-bit sequence
words, 8- and 16-bit counters, headers inside a byte array, bitmaps, linked nodes), changes them in the
same loops and branches, and each of its methods is proved to refine the specification.

| files | what they model |
|---|---|
| `Words.dfy` | machine words, 32-bit serial comparison, a few shared definitions |
| `TcpReceive.dfy`, `TcpReceiver.dfy` | `tcp_receive`: trimming, delivery, the out-of-order queue |
| `TcpSend.dfy`, `TcpSender.dfy` | `tcp_enqueue`, `tcp_output`, `tcp_rexmit`, acknowledgements |
| `TcpEndToEnd.dfy` | a sender and a receiver over a network that loses, repeats and reorders |
| `TcpDialogue.dfy` | the same pair with its own acknowledgements coming back over that network: safety and progress |
| `ElfImage.dfy`, `ElfLoader.dfy` | the batch load of an image, and the loader fed block by block |
| `HeapModel.dfy`, `Heap.dfy` | the heap of `mem.c` as a row of blocks, and as headers in its array |
| `IpReass.dfy`, `IpReassembler.dfy`, `IpFrag.dfy`, `IpFragmenter.dfy`, `Chains.dfy` | reassembly and fragmentation |
| `PbufModel.dfy`, `PbufCycles.dfy`, `PbufPool.dfy`, `PbufShrink.dfy`, `PbufTake.dfy`, `PbufRuns.dfy`, `Pbufs.dfy` | packet buffer chains, reference counts, the pool |
| `OnesSum.dfy`, `Checksums.dfy`, `Adler.dfy` | one's complement checksums (RFC 1071, section 2), Adler-32 (RFC 1950, section 2.2) |
| `Timers.dfy`, `TimerList.dfy` | the delta list of timeouts |
| `Ports.dfy`, `DhcpOptions.dfy`, `Arp.dfy`, `ArpTable.dfy` | free ports, DHCP options (RFC 2132, section 2), the ARP table |

Memory that may run out, the clock, what a wait returns and what uninitialised buffers hold are
parameters (`alloc`, `room`, `now`, `result`, `junk`), so the theorems hold whatever they are.

## Where the code does not do what it says

The model follows the code.  Each of these is proved, with a condition that says exactly when it happens and an
input on which it does.

- A queued out-of-order segment is replaced by a longer resend of the same start without being cut at
  the next queued one.  The queue is in order after an arrival if and only if that did not happen
  (`TcpReceive.OrderKeptIffNoOverrun`); in the run of `TcpReceive.OverrunLosesCount`
  31 bytes are handed up and `rcv_nxt` moves by 65556.  The sender of this stack never causes it
  (`TcpEndToEnd.NeverOverruns`).
- The comparisons of an acknowledgement number are made modulo 2^32.  A number between `snd_max` and the end
  of the first unsent segment, both less 2^31, passes for an acknowledgement of it: everything in `unsent` is
  freed although it was never sent.  These numbers, and no others, break the sender's invariant
  (`TcpSend.FreesExactIff`, `TcpSend.AcknowledgedGoodIff`, `TcpSend.BytesLost`).  The receiver of this stack
  never sends one of them (`TcpDialogue.NeverMisread`).
- The probe of the image loader adds addresses in 32 bits.  It accepts headers that wrap, whose segments are
  outside memory or longer in the file than in memory, and no others of that kind (`ElfImage.ProbeSoundIff`,
  `ElfImage.AcceptsWrapping`).  `ElfLoader.Loader.Feed` speaks of images that do not wrap, which is that condition.
- `ip_reass` copies as many bytes as the length field says, and nothing makes sure that the pbuf chain has
  them (`IpReassembler.CopyInsideIff`, `IpReassembler.CopiesBeyond`).
- `pbuf_dechain` takes the 8-bit count that `pbuf_free` returns for the question whether the tail is gone: with
  256 pbufs given back it returns one of them (`PbufShrink.DechainRightIff`, `PbufShrink.DechainReturnsFreed`).
- `lfree` is commented as the lowest free block.  `mem_realloc` can give back space below it
  (`HeapModel.ReallocLowestIff`, `HeapModel.MissedBlock`).
- `mem_malloc(65535)` grants a block of no bytes, and `mem_realloc` shrinks a block to nothing for the same
  request (`HeapModel.GrantedHoldsIff`, `HeapModel.GrantedNothing`, `HeapModel.ResizedHoldsIff`,
  `HeapModel.ResizedToNothing`).
- The scan of the reassembly bitmap stops one byte before the comment says, so a datagram may be
  delivered with up to 64 bytes that never came (`IpReassembler.Reassembler.Scan`, `IpReass.WholeIff`,
  `IpReass.DeliversUnreceived`).
  A fragment that ends exactly at the end of the buffer makes it write behind the bitmap
  (`IpReass.BitmapIndexIff`, `IpReass.EndsBehindBitmap`).
- The 16-bit `ref` of a packet buffer wraps (`PbufModel.RefCountedIff`, `PbufModel.RefWraps`), and so does the
  `tot_len` of two chains joined (`PbufModel.CatWholeIff`, `PbufModel.CatWraps`).
- The loader skips without notice a segment whose file range starts before the end of another one
  (`ElfImage.AllChosenIffDisjoint`, `ElfImage.SegmentSkipped`).
- A pending ARP entry takes over the `ctime` of its place, so it may expire at the first tick instead of
  the second (`Arp.PendingLivesIff`, `Arp.PendingGoneAtOnce`).
- `udp_bind` reports no free port when only the last of its range is free (`Ports.UdpFreePort`,
  `Ports.LastPortMissed`).

## Model

| member | source | states |
|---|---|---|
| TcpReceive.RunDeliversStream | lwip/tcp_in.c:899-1148 | Over any run of data arrivals (any order, overlaps, duplicates, failed allocations) and reads by the application, for segments that agree with one byte stream and never overrun the queue, the bytes handed up are exactly the stream from the first `rcv_nxt` to the last, and the queue stays sorted, disjoint and above `rcv_nxt` |
| TcpReceive.ReceiveDelivers | lwip/tcp_in.c:899-1148 | One arrival hands up exactly the stream between the old and the new `rcv_nxt` and keeps the queue tiled; `rcv_nxt` moves if and only if the segment reaches across it and the window is open |
| TcpReceive.OrderKeptIffNoOverrun | lwip/tcp_in.c:1058-1148 | The queue is still sorted and disjoint after an arrival if and only if the arrival is not a longer resend at the start of a queued segment that runs into the next one |
| TcpReceive.OverrunBreaksOrder | lwip/tcp_in.c:1064-1077 | Such a resend replaces the queued segment untrimmed and leaves two queued segments overlapping |
| TcpReceive.OverrunLosesCount | lwip/tcp_in.c:1064-1077 | A concrete run of three arrivals of zeros in which that overlap makes the 16-bit length arithmetic wrap: 31 bytes are handed up and `rcv_nxt` moves by 65556 |
| TcpReceive.WalkFindsPlace | lwip/tcp_in.c:1042-1147 | The pointer walk over a sorted queue inserts at the one index whose neighbours surround the segment, or leaves the queue alone if no memory is left |
| TcpReceive.InsertFindsPlace | lwip/tcp_in.c:1037-1147 | The same for the whole insertion, the empty queue included |
| TcpReceive.PlacedTiled | lwip/tcp_in.c:1058-1146 | An insertion that does not overrun keeps the queue sorted, disjoint, above `rcv_nxt`, and in agreement with the stream |
| TcpReceive.PlacedCovers | lwip/tcp_in.c:1058-1146 | Byte for byte what the queue holds after an insertion: everything below the segment and from the next queued start on, and in between only the new segment or an old one with the same start |
| TcpReceive.ReceiveQueues | lwip/tcp_in.c:944-1147 | Of one arrival as a whole: data ahead of its turn hands nothing up, moves neither `rcv_nxt` nor the window, and is queued if there is memory: byte for byte the queue holds what it held below it and from the next queued start on, and in between what it brings (outside an overrun) |
| TcpReceive.ReceiveTakes | lwip/tcp_in.c:899-1035 | Data that is due moves `rcv_nxt` to its end, or, where it reaches the queue, to the end of the queued segments that abut from there on; exactly these leave the queue, and the window shrinks by what was handed up, to nothing at least |
| TcpReceive.ReceiveIgnores | lwip/tcp_in.c:931-946 | Data that is empty, old, beyond the window, or for a closed window changes nothing and hands nothing up |
| TcpReceive.RecvedOpens | lwip/tcp.c:440-446 | Reading opens the window by what was read, up to TCP_WND, and changes nothing else |
| TcpReceive.DrainTakes | lwip/tcp_in.c:1000-1030 | The drain removes exactly the longest run of queued segments that abut from `rcv_nxt` on and moves `rcv_nxt` to its end |
| TcpReceive.DrainDelivers | lwip/tcp_in.c:1000-1030 | What the drain hands up is the stream from the old to the new `rcv_nxt` |
| TcpReceive.FrontTrimmedAgrees | lwip/tcp_in.c:899-936 | Trimming what was already received leaves a segment with the same end whose bytes still agree with the stream |
| TcpReceive.InSequenceTakes | lwip/tcp_in.c:951-1035 | A segment in sequence moves `rcv_nxt` to the end of what is then contiguous: its own end, or, cut at the first queued segment, the end of the run that abuts there |
| TcpReceive.InSequenceDelivers | lwip/tcp_in.c:951-1035 | It hands up exactly the stream over that distance |
| TcpReceive.QueueGrowsByOne | lwip/tcp_in.c:1037-1147 | An arrival adds one segment to the queue at most, and only if there is memory for it |
| TcpReceive.QueueOrigins | lwip/tcp_in.c:1037-1147 | Every queued segment lies within a segment queued before or the one that has just arrived |
| TcpReceiver.Pcb.constructor | lwip/tcp.c:926-935 | A fresh connection has an empty, tiled queue and the full window |
| TcpReceiver.Pcb.Receive | lwip/tcp_in.c:899-1148 | `tcp_receive` on 32-bit sequence words and 16-bit lengths computes what the specification on unbounded positions says, for a segment at the position nearest `rcv_nxt`; while the queue is in order its words stay comparable |
| TcpReceiver.Pcb.TrimFront | lwip/tcp_in.c:899-936 | Trimming on words is trimming on positions |
| TcpReceiver.Pcb.Insert | lwip/tcp_in.c:1042-1147 | The loop over `ooseq` refines the insertion of the specification |
| TcpReceiver.Pcb.Splice | lwip/tcp_in.c:1068-1076 | Relinking replaces exactly the segments from `lo` to `hi` of the queue |
| TcpReceiver.Pcb.Drain | lwip/tcp_in.c:1000-1030 | The loop that chains queued segments onto the received data refines the drain |
| TcpReceiver.Pcb.InSequence | lwip/tcp_in.c:951-1035 | Trimming at the first queued segment, counting and draining refine the specification |
| TcpReceiver.Pcb.Recved | lwip/tcp.c:440-446 | `tcp_recved` reopens the window by what was consumed, never beyond TCP_WND |
| TcpReceiver.CompareExact | lwip/lwip/src/include/lwip/tcp.h:111-114 | For segments near each other the macros on words order them as their positions do, and trimming on words is trimming on positions |
| Words.SeqExact | lwip/lwip/src/include/lwip/tcp.h:111-114 | TCP_SEQ_LT and its relatives decide the order of positions less than 2^31 apart |
| Words.DiffExact | lwip/lwip/src/include/lwip/tcp.h:111-114 | The signed 32-bit difference of two such positions is their difference |
| Words.NearestInverts | lwip/tcp_in.c:899-936 | Reading a 32-bit word as the position nearest `rcv_nxt` undoes the truncation, over the whole window of 2^31 on either side |
| TcpSend.RunGood | lwip/tcp_out.c:100-347 | Over every run of enqueue, output, acknowledgement and retransmit steps of a passively opened connection with mss > 0, whose 32-bit acknowledgement numbers are not misread: `unacked ++ unsent` tiles a contiguous range that ends at `snd_lbb`, no queued segment ends at or before `lastack`, `snd_buf + (snd_lbb - lastack)` is TCP_SND_BUF modulo 2^16, `snd_queuelen` is the number of pbufs queued, and each segment ever sent carries the bytes written at its position |
| TcpSend.QueueHoldsUnretired | lwip/tcp_out.c:100-347 | The two queues together hold exactly what was written and is not yet retired |
| TcpSend.FreshGood | lwip/tcp.c:930-950 | The invariant holds of a connection just opened |
| TcpSend.StepGood | lwip/tcp_out.c:100-347 | Every step that is not a misread acknowledgement number keeps the invariant, and nothing written or sent is ever taken back |
| TcpSend.WriteGood | lwip/tcp_out.c:100-347 | `tcp_enqueue` keeps the invariant, and changes nothing when it fails |
| TcpSend.WriteOnlyAppends | lwip/tcp_out.c:276-347 | It changes nothing about what was sent; only `unsent` grows |
| TcpSend.SplitTiles | lwip/tcp_out.c:147-273 | Cutting a request yields segments of at most mss bytes that tile its range, one at least, with the right pbuf total |
| TcpSend.SplitCarries | lwip/tcp_out.c:147-273 | Each of them carries the bytes written at its position |
| TcpSend.SplitFull | lwip/tcp_out.c:147-273 | It takes no more segments than it must: all but the last are full |
| TcpSend.AcceptsIff | lwip/tcp_out.c:115-273 | A request is taken if and only if its data fits `snd_buf`, the pbufs of its ceil(len/mss) segments fit the limit of 8, and there is memory for the segments |
| TcpSend.AppendChainsIff | lwip/tcp_out.c:279-319 | The first new segment is chained to the last unsent one if and only if both hold data and fit in one segment together |
| TcpSend.AppendTiles | lwip/tcp_out.c:279-319 | Joining them to `unsent` extends the tiling and adds up the pbufs, whether or not the first is chained to the last unsent segment |
| TcpSend.OutputSendsWindow | lwip/tcp_out.c:437-474 | `tcp_output` sends the longest head of `unsent` that lies inside the window, in order, moves it to `unacked`, stops at a segment that does not fit, and moves `snd_max` to the furthest end it sent, if that is ahead, and no further |
| TcpSend.TransmitGood | lwip/tcp_out.c:437-474 | It keeps the invariant and the queue as a whole |
| TcpSend.RequeueGood | lwip/tcp_out.c:571-590 | `tcp_rexmit` keeps the invariant and the queue as a whole |
| TcpSend.RequeuesAll | lwip/tcp_out.c:571-590 | It leaves nothing in flight and all that is queued unsent, in order |
| TcpSend.LoopsDrop | lwip/tcp_in.c:782-835 | The two removal loops together drop exactly the acknowledged head of the whole queue, although a retransmission may have moved sent segments to `unsent` |
| TcpSend.NewAckDrops | lwip/tcp_in.c:731-835 | After an acknowledgement of data in flight the rest still tiles, nothing in it is acknowledged, and the buffer space has grown by what was acknowledged |
| TcpSend.NewAckGood | lwip/tcp_in.c:731-835 | It keeps the invariant, moves `lastack` to the acknowledged position and retires just the segments that end by there |
| TcpSend.NewAckPlaces | lwip/tcp_in.c:782-835 | What is not acknowledged stays where it was, in flight or unsent |
| TcpSend.AckGood | lwip/tcp_in.c:700-835 | An acknowledgement of any position keeps the invariant; one that is not for data in flight retires nothing and leaves `lastack` where it is |
| TcpSend.FastResends | lwip/tcp_in.c:700-730 | The duplicate that starts a fast retransmit puts all that is in flight back in front of what is unsent; any other duplicate changes nothing |
| TcpSend.StrayAcks | lwip/tcp_in.c:731-835 | Acknowledgements that are old, or for what was never sent, change nothing |
| TcpSend.StepNumbered | lwip/tcp_out.c:448-469 | `snd_nxt` is where the next segment to go out starts, after every step that is not a misread number; it lags only after an acknowledgement has emptied both queues in the middle of a retransmission |
| TcpSend.RunNumbered | lwip/tcp_out.c:100-590 | So it is in every state of every run |
| TcpSend.FreesExactIff | lwip/tcp_in.c:812-815 | For segments near `lastack` the guard of the loop over `unsent`, on 32-bit words, is the guard on positions if and only if the acknowledgement does not lie between `snd_max` and the segment end, both less 2^31 |
| TcpSend.NewerExactIff | lwip/tcp_in.c:731-732 | The test for new data on words is the test on positions if and only if not: nothing is in flight and the number is half the sequence space from `lastack` |
| TcpSend.AcknowledgedExact | lwip/tcp_in.c:700-835 | Any other 32-bit number has the effect that an acknowledgement of the position nearest `lastack` should have |
| TcpSend.NearNotMisread | lwip/tcp_in.c:700-835 | No number is misread whose position lies less than 0x7000_0000 behind `lastack`, or in front of it |
| TcpSend.ResendsAll | lwip/tcp_out.c:437-590 | `tcp_rexmit` and then `tcp_output` with a window that covers the queue put all of it on the wire, in order, and `snd_max` at its end |
| TcpSend.MisreadLoses | lwip/tcp_in.c:812-835 | A misread number frees all of `unsent`, and in the one case moves `lastack` by 2^31 |
| TcpSend.AcknowledgedGoodIff | lwip/tcp_in.c:700-835 | The invariant survives an acknowledgement number if and only if the number is not misread |
| TcpSend.BytesLost | lwip/tcp_in.c:812-835 | A concrete run of five steps in which ten bytes that were written but never sent are freed by one acknowledgement number |
| TcpSend.OutstandingBounded | lwip/tcp_out.c:129-135 | What is outstanding is bounded by the pbuf limit, far inside the range where 32-bit comparisons are exact |
| TcpSender.Pcb.constructor | lwip/tcp.c:926-950 | The fields of a fresh connection encode the initial state of the specification |
| TcpSender.Pcb.Enqueue | lwip/tcp_out.c:100-347 | `tcp_enqueue` on words, with its u8 and u16 counters, refines the specification: it succeeds if and only if the request fits buffer, queue and memory, and a failure changes nothing |
| TcpSender.Pcb.BreakUp | lwip/tcp_out.c:142-273 | The segmentation loop builds the specified segments, or fails exactly if memory or the queue limit does not suffice |
| TcpSender.Pcb.Append | lwip/tcp_out.c:276-320 | Splicing and accounting refine the specification, and it succeeds if and only if the request is accepted |
| TcpSender.Pcb.JoinUnsent | lwip/tcp_out.c:279-313 | Chaining or appending the new segments refines the joining of the specification |
| TcpSender.CutOneMore | lwip/tcp_out.c:147-273 | One turn of the segmentation loop cuts off the next segment, or shows that the request does not fit |
| TcpSender.Pcb.Output | lwip/tcp_out.c:437-475 | `tcp_output` refines the specification, and what goes on the wire is what the specification sends |
| TcpSender.Pcb.SendLoop | lwip/tcp_out.c:437-474 | The send loop under wrapping window arithmetic refines the specification |
| TcpSender.Pcb.SendHead | lwip/tcp_out.c:448-469 | One segment moves from `unsent` to `unacked`, with `snd_nxt` and `snd_max` |
| TcpSender.WindowExact | lwip/tcp_out.c:437-438 | The window test on 32-bit words is the test on positions |
| TcpSender.Pcb.Rexmit | lwip/tcp_out.c:571-590 | `tcp_rexmit` refines the specification and keeps the connection valid |
| TcpSender.Pcb.Requeue | lwip/tcp_out.c:579-588 | The relinking refines the specification |
| TcpSender.Pcb.Acknowledge | lwip/tcp_in.c:700-835 | On words, for every acknowledgement number, the code refines `Acknowledged`; the connection stays valid if and only if the number is not misread, and then it is what an acknowledgement of the nearest position should do |
| TcpSender.Pcb.ProcessAck | lwip/tcp_in.c:700-835 | All branches on any acknowledgement number, with both removal loops |
| TcpSender.Pcb.AckUnacked | lwip/tcp_in.c:700-804 | The part up to the loop over `unsent`: duplicates, fast retransmit, new data |
| TcpSender.Pcb.NewAck | lwip/tcp_in.c:731-804 | New data: buffer space comes back modulo 2^16, `lastack` moves, acknowledged segments go |
| TcpSender.Pcb.DropUnacked | lwip/tcp_in.c:782-802 | The loop over `unacked` refines `FreeUnacked`, comparison on words included |
| TcpSender.Pcb.DropUnsent | lwip/tcp_in.c:812-835 | The loop over `unsent` refines `FreeUnsent`, comparisons on words included, and `snd_nxt` follows the head |
| TcpEndToEnd.ReceivedIsPrefixOfWritten | lwip/tcp_in.c:899-1148 | A sender and a receiver of this stack joined by a network that loses, repeats and reorders, and acknowledgement numbers that are not misread: at every moment of every run the bytes handed up are exactly what the sending application wrote, in order, from the start of the stream |
| TcpEndToEnd.NeverOverruns | lwip/tcp_in.c:1064-1077 | The segments of this sender never overrun the receive queue, so the flaw of the queue cannot show between two of these stacks |
| TcpEndToEnd.StepGood | lwip/tcp_in.c:899-1148 | Every step of sender, network, receiver or application keeps the joint invariant |
| TcpEndToEnd.RunGood | lwip/tcp_in.c:899-1148 | The joint invariant holds in every state of every run, and the stream keeps its start |
| TcpDialogue.TalkDelivers | lwip/tcp_in.c:700-1148 | The same without any condition on acknowledgement numbers when they are the `rcv_nxt` of this receiver, which may be lost, repeated, delayed and reordered too: in every run what is handed up is exactly what was written behind the SYN, in order |
| TcpDialogue.Progress | lwip/tcp_in.c:700-1148 | The pair is never stuck: from every state that a run reaches, if only bytes are left to receive, there is a run after which everything written is handed up and acknowledged, both queues are empty and the whole send buffer is free again |
| TcpDialogue.ArriveInOrder | lwip/tcp_in.c:899-1035 | Once the sent segments that tile what is left arrive in order, and the application reads, everything written has been handed up |
| TcpDialogue.NeverMisread | lwip/tcp_out.c:486 | An acknowledgement of this receiver that arrives less than 0x7000_0000 bytes late is not misread, and is read as the position it was sent for |
| TcpDialogue.RunGood | lwip/tcp_in.c:700-1148 | In every state of every such run nothing unreceived is retired, and nothing unsent is received or acknowledged |
| TcpDialogue.StepGood | lwip/tcp_in.c:700-1148 | Every step of either side or of the network keeps that |
| TcpDialogue.InitialGood | lwip/tcp.c:926-950 | It holds before anything is sent |
| TcpDialogue.NxtWasSent | lwip/tcp_in.c:951-1035 | No arrival moves `rcv_nxt` past `snd_max` |
| TcpDialogue.AckKeeps | lwip/tcp_in.c:700-835 | An arriving acknowledgement moves `lastack` to its position if that is ahead, and not at all otherwise |
| TcpDialogue.TakenWhole | lwip/tcp_in.c:951-1035 | A segment of this sender that is due is taken up to its end, whatever is queued behind it |
| TcpDialogue.Settles | lwip/tcp_in.c:700-835 | Once everything has arrived, one acknowledgement empties both queues |
| ElfLoader.Loader.Feed | etherboot/core/osloader.c:332-422 | However the file is cut into blocks, if the probe accepts headers that do not wrap, the kernel starts with memory exactly as the batch loader leaves it; the probe decides the result |
| ElfLoader.Loader.FeedRest | etherboot/core/nfs.c:556-602 | The blocks after the first, until the loader is done, reach the goal whatever their sizes |
| ElfLoader.Loader.LoadBlock | etherboot/core/osloader.c:332-422 | `load_block` probes on the first block, and on every block keeps the memory still to come on course to the same target |
| ElfLoader.Loader.PassOn | etherboot/core/osloader.c:394-420 | The arithmetic of `skip_sectors` and `skip_bytes` drops exactly the bytes the loader asked to skip; `skip_bytes` stays below 512 and `loc` is the true file offset |
| ElfLoader.Loader.Download | etherboot/core/elf_loader.c:217-291 | `elf32_download` terminates, leaves `skip` below 512 and `loc` past the block and the sectors to be dropped, and either finishes the image or keeps its target |
| ElfLoader.Loader.ScanBlock | etherboot/core/elf_loader.c:224-287 | The do-while loop uses up the block or completes the last segment |
| ElfLoader.Loader.Consume | etherboot/core/elf_loader.c:225-249 | Skipping and copying of the current segment keep what memory will become |
| ElfLoader.Loader.CopyOn | etherboot/core/elf_loader.c:235-247 | The copy of what the block holds of the segment does so, and resumes where it stopped |
| ElfLoader.Loader.FindNext | etherboot/core/elf_loader.c:256-268 | The search over the headers computes the next segment in file order |
| ElfLoader.Loader.Copy | etherboot/core/elf_loader.c:241-241 | `memcpy` changes exactly the target range |
| ElfLoader.Loader.ProbeImage | etherboot/core/elf_loader.c:191-214 | The segment checks agree with the specification in verdict and memory, and reset the loader when they pass |
| ElfLoader.Loader.PrepSegment | etherboot/core/osloader.c:164-255 | `prep_segment` agrees with the specification in verdict and memory |
| ElfLoader.Loader.ZeroBss | etherboot/core/osloader.c:250-253 | The zeroed range is exactly from `mid` to `end` |
| ElfLoader.FinishSkips | etherboot/core/elf_loader.c:227-233 | Skipping ahead changes nothing of what is still to be loaded |
| ElfLoader.FinishCopies | etherboot/core/elf_loader.c:235-247 | A partial copy followed by the rest is the whole copy |
| ElfLoader.FinishEnds | etherboot/core/elf_loader.c:241-246 | Completing a segment leaves the batch load of the later ones |
| ElfLoader.FinishSelects | etherboot/core/elf_loader.c:283-285 | Making the next segment current, with its skip, changes nothing of what is still to be loaded |
| ElfImage.BestIsLowest | etherboot/core/elf_loader.c:256-268 | The segment chosen has the lowest offset from the current position on, the first of them on a tie |
| ElfImage.AllChosenIffDisjoint | etherboot/core/elf_loader.c:251-268 | The loader, which only seeks forward, copies every PT_LOAD segment if and only if no two of them overlap in the file |
| ElfImage.SegmentSkipped | etherboot/core/elf_loader.c:251-268 | Of two segments that share five bytes of the file, the second is never copied |
| ElfImage.LoadPlaces | etherboot/core/elf_loader.c:224-287 | For segments disjoint in file and memory the batch load puts every file byte at its address |
| ElfImage.LoadKeeps | etherboot/core/elf_loader.c:224-287 | It leaves every address alone that belongs to no segment still to come |
| ElfImage.LoadLast | etherboot/core/elf_loader.c:224-287 | Where segments share memory, an address holds the byte of the last segment in the file that was copied and has one for it |
| ElfImage.LoadMisses | etherboot/core/elf_loader.c:224-287 | An address that no segment copied has a byte for keeps what it held |
| ElfImage.ImageBytes | etherboot/core/elf_loader.c:217-287 | In the finished image every segment has its file bytes at `p_paddr` |
| ElfImage.ImageBss | etherboot/core/osloader.c:250-253 | It has zeros from there up to the memory size |
| ElfImage.ImageElsewhere | etherboot/core/elf_loader.c:217-287 | Everything outside the segments is as it was |
| ElfImage.PrepHeaderMeans | etherboot/core/osloader.c:174-253 | Of an accepted header, wrapping or not: the ends that the program computes are in order and in a RAM region, and exactly what lies between them has been zeroed |
| ElfImage.ProbeChecks | etherboot/core/elf_loader.c:191-209 | A probe that passes has checked this of every PT_LOAD header |
| ElfImage.PrepHeaderIff | etherboot/core/osloader.c:185-222 | A PT_LOAD header that does not wrap is accepted if and only if it is no longer in the file than in memory and lies in one region of RAM, first and last byte of the region included |
| ElfImage.ProbeIff | etherboot/core/elf_loader.c:191-209 | An image that does not wrap is accepted if and only if that holds of every PT_LOAD header |
| ElfImage.ProbeZeroes | etherboot/core/elf_loader.c:191-209 | It has zeroed exactly the bytes between the computed ends of each |
| ElfImage.ClearsBss | etherboot/core/osloader.c:250-253 | Of headers that do not wrap, these bytes are every bss and nothing else |
| ElfImage.ProbeSound | etherboot/core/elf_loader.c:191-209 | What it accepts of headers that do not wrap lies in memory, which is what the loader relies on |
| ElfImage.ProbeSoundIff | etherboot/core/elf_loader.c:191-209 | With memory below 4 GiB, the segments of an accepted image lie in memory, file bytes within their memory size, if and only if no address of theirs wraps 32 bits |
| ElfImage.AcceptedLiesIff | etherboot/core/osloader.c:174-255 | The same of one accepted header |
| ElfImage.AcceptsWrapping | etherboot/core/osloader.c:174-255 | Two accepted headers that wrap: one whose file bytes all lie outside RAM, one with more file bytes than memory |
| HeapModel.RunGood | lwip/mem.c:80-309 | In every state of every run of `mem_malloc`, `mem_free` and `mem_realloc` the blocks tile the heap, each at least a header long, no two free ones adjacent, and `lfree` is a free block |
| HeapModel.RunEven | lwip/mem.c:250-299 | In every state of every run every block, and so every allocation, starts at an even address, so the assert on alignment cannot fail |
| HeapModel.RunLowest | lwip/mem.c:136-309 | In every run without a shrink that leaves a lower free block (so in every run of only `mem_malloc` and `mem_free`) `lfree` is the lowest free block |
| HeapModel.FailsIff | lwip/mem.c:240-309 | With `lfree` lowest, a request fails if and only if it is empty, larger than MEM_SIZE, or no free block has room for it, rounded up to an even size, and a header |
| HeapModel.TakenIsFirst | lwip/mem.c:262-270 | The block taken is the first free one from `lfree` on with room for the size rounded up and a header |
| HeapModel.AlignedIs | lwip/mem.c:250-254 | A size is rounded up to the next even number, and 65535 to nothing |
| HeapModel.ReallocLowestIff | lwip/mem.c:224-236 | `mem_realloc` keeps `lfree` lowest if and only if it does not give back space below `lfree` that joins no free block there |
| HeapModel.MissedBlock | lwip/mem.c:224-236 | A concrete run in which it does not, and a later request is refused although a free block would hold it |
| HeapModel.GrantedHoldsIff | lwip/mem.c:250-258 | A granted block holds the bytes asked for if and only if they were not 65535, which the rounding wraps to zero |
| HeapModel.GrantedNothing | lwip/mem.c:241-300 | On a fresh heap `mem_malloc(65535)` grants a block with room for no byte |
| HeapModel.ResizedHoldsIff | lwip/mem.c:189-239 | A block that `mem_realloc` hands back keeps what it had of the bytes asked for, if and only if they were not 65535 or the block was too short to shrink |
| HeapModel.ResizedToNothing | lwip/mem.c:189-239 | After `mem_malloc(100)`, `mem_realloc` to 65535 leaves a block with room for no byte |
| HeapModel.MallocGood | lwip/mem.c:240-309 | `mem_malloc` keeps the tiling, the joining of free blocks and `lfree`, so its assert on `lfree` cannot fail |
| HeapModel.FreeGood | lwip/mem.c:136-175 | So does `mem_free` |
| HeapModel.ReallocGood | lwip/mem.c:189-238 | So does `mem_realloc` |
| HeapModel.PlugHolesGood | lwip/mem.c:80-112 | `plug_holes` restores both for a block that has just become free |
| HeapModel.MallocLowest | lwip/mem.c:240-309 | `mem_malloc` keeps `lfree` the lowest free block |
| HeapModel.FreeLowest | lwip/mem.c:136-175 | So does `mem_free` |
| HeapModel.MallocLive | lwip/mem.c:262-300 | A granted request adds one allocation of the aligned size at the place returned; all others stay |
| HeapModel.FreeLive | lwip/mem.c:136-175 | Freeing takes away that allocation and no other |
| HeapModel.ReallocLive | lwip/mem.c:224-236 | Shrinking shortens that allocation in place and touches no other |
| HeapModel.ReallocRoom | lwip/mem.c:189-239 | `mem_realloc` leaves the block where it is, cut to the size rounded up if that gives more than 18 bytes back, and as it was otherwise |
| Heap.Heap.constructor | lwip/mem.c:113-134 | `mem_init` lays out one free block and the end marker |
| Heap.Heap.Malloc | lwip/mem.c:240-309 | On the byte array with headers inside it, `mem_malloc` refines the model, returns the address of the block granted, and keeps every byte of every live allocation; the address returned is behind the header of a block that is in use from then on |
| Heap.Heap.Free | lwip/mem.c:136-175 | `mem_free` likewise; a pointer outside the heap changes nothing |
| Heap.Heap.Realloc | lwip/mem.c:189-239 | `mem_realloc` likewise; bytes that are not given up stay |
| Heap.Heap.PlugHoles | lwip/mem.c:80-112 | The stores into headers refine the joining, and keep all live bytes |
| Heap.Heap.PlugForward | lwip/mem.c:90-100 | The join with the block behind |
| Heap.Heap.PlugBackward | lwip/mem.c:102-110 | The join with the block in front |
| Heap.Heap.Absorb | lwip/mem.c:98-99 | Two stores make two blocks one, header links included |
| Heap.Heap.GiveBack | lwip/mem.c:225-235 | The end of a shrink is a cut followed by `plug_holes` |
| Heap.Heap.Carve | lwip/mem.c:225-233 | Its five stores lay out the cut row and keep all live bytes |
| Heap.Heap.Search | lwip/mem.c:262-265 | The loop along the `next` links finds the first fit from `lfree` on, or runs to the end |
| Heap.Heap.Take | lwip/mem.c:266-294 | Taking a block cuts it and moves `lfree` on if it stood there |
| Heap.Heap.Split | lwip/mem.c:266-277 | Its six stores lay out the cut row and keep all live bytes |
| Heap.Heap.AdvanceFree | lwip/mem.c:288-293 | The walk to the next free block stops at the rest of the block that was cut |
| Heap.CutLaid | lwip/mem.c:266-277 | After a cut is stored, every header in the array matches the cut row, links of the neighbours included |
| Heap.JoinLaid | lwip/mem.c:98-99 | After a join is stored, every header matches the joined row |
| Heap.HeadersKeep | lwip/mem.c:80-309 | Stores into headers never reach an allocated byte |
| IpFrag.RoundTrip | lwip/ip_frag.c:104-347 | Fed in order to an idle reassembly, the fragments of any payload shorter than 5760 bytes, for any MTU of at least a header and 8 bytes, give it back at the last one and nothing before |
| IpFrag.PiecesPartition | lwip/ip_frag.c:308-342 | The fragments partition the payload at 8-byte offsets, each within the MTU, MF set on all but the last |
| IpFrag.PiecesFull | lwip/ip_frag.c:303-312 | Each fragment but the last holds as many units of 8 bytes as the MTU admits, and no two neighbours would fit one together |
| IpFrag.PiecesOfFragment | lwip/ip_frag.c:296-325 | A fragment cut up once more differs from a whole datagram in the flag of the last piece only |
| IpFrag.FeedPartition | lwip/ip_frag.c:104-267 | Any such partition, fed in order, is reassembled at its last piece |
| IpFragmenter.Fragmenter.Frag | lwip/ip_frag.c:278-347 | `ip_frag` on any pbuf chain emits exactly these fragments, with lengths, offsets and flags that `ip_reass` reads back |
| IpFragmenter.Fragmenter.Fill | lwip/ip_frag.c:310-331 | One turn of its loop: the size of the piece, its header field, and where the chain goes on |
| IpFragmenter.Fragmenter.Emit | lwip/ip_frag.c:319-342 | The bytes copied behind the header are the next ones of the payload |
| IpReassembler.CopyInsideIff | lwip/ip_frag.c:139-159 | When `ip_reass` copies, the copy stays inside the pbuf chain if and only if that is as long as the length field says |
| IpReassembler.DecodeReads | lwip/ip_frag.c:113-145 | Offset and flag are read where RFC 791, section 3.1, puts them |
| IpReassembler.CopiesBeyond | lwip/ip_frag.c:139-159 | A first fragment that `ip_input` hands over, a bare header whose length field says 100, makes an idle `ip_reass` copy beyond its chain |
| IpReassembler.CopyFromPbuf | lwip/ip_frag.c:56-75 | `copy_from_pbuf` writes exactly the bytes asked for, across pbuf borders, if the chain has them, and the next call goes on behind them |
| IpReass.RunDelivers | lwip/ip_frag.c:104-267 | In every run of fragments of one datagram in any order, lost or repeated, among others and timer ticks: a delivery has the right length and the right bytes in every unit received; if the bitmap byte that is never inspected is full too, it is the payload |
| IpReass.RunCompletes | lwip/ip_frag.c:104-267 | In every such run, with the arrival after which nothing of the datagram is missing, in whatever order it came, it is delivered, unless it was delivered or given up before |
| IpReass.CompletionDelivers | lwip/ip_frag.c:185-240 | The fragment that completes a datagram delivers it, whichever of its fragments that is |
| IpReass.WaitsIff | lwip/ip_frag.c:94-125 | What is not whole waits 30 ticks for the rest, and no longer |
| IpReass.ArrivalCounts | lwip/ip_frag.c:142-240 | A later fragment that does not complete the datagram is recorded and gains no time; one that does ends the wait |
| IpReass.OthersDropped | lwip/ip_frag.c:118-160 | Meanwhile fragments of other datagrams change nothing, and one that goes beyond the buffer ends the wait |
| IpReass.BeyondBlocks | lwip/ip_frag.c:215-225 | A unit received behind the end, in the same byte of the bitmap, keeps the datagram back |
| IpReass.RunHolds | lwip/ip_frag.c:104-267 | In every state of such a run the buffer agrees with the payload wherever a unit was received |
| IpReass.StepHolds | lwip/ip_frag.c:104-267 | Every fragment and every tick keeps that |
| IpReass.WholeIff | lwip/ip_frag.c:202-222 | Of what passes the scan, exactly the datagrams whose skipped bitmap byte is full have all their units |
| IpReass.DeliversUnreceived | lwip/ip_frag.c:205-222 | Two fragments of a 128-byte payload are delivered as whole with 56 bytes that were never received |
| IpReass.BitmapIndexIff | lwip/ip_frag.c:142-183 | Of the fragments let into the buffer, those that write behind the bitmap are exactly those that end at its end |
| IpReass.EndsBehindBitmap | lwip/ip_frag.c:142-183 | Eight bytes at offset 5752 are let in, and their bits belong to byte 90 of a bitmap of 90 |
| IpReassembler.Reassembler.Reass | lwip/ip_frag.c:104-267 | `ip_reass` on its byte buffer and bitmap refines the model, unless it copies beyond the chain or behind the bitmap; without memory for the result the payload is lost but the state is the same |
| IpReassembler.Reassembler.Mark | lwip/ip_frag.c:161-183 | The bit masks add exactly the units of the fragment to the set the bitmap stands for |
| IpReassembler.Reassembler.MarkByte | lwip/ip_frag.c:162-169 | The case of both ends in one byte |
| IpReassembler.Reassembler.MarkBytes | lwip/ip_frag.c:170-183 | The case of two bytes and 0xff in between |
| IpReassembler.AddedShows | lwip/ip_frag.c:161-183 | A bitmap to which the masks were added stands for the union of the old units and the new |
| IpReassembler.AddedUnits | lwip/ip_frag.c:161-183 | Bit by bit, the masks are the units from `lo` to before `hi` |
| IpReassembler.BitsFrom | lwip/ip_frag.c:83-85 | The constants of `bitmap_bits` are the bits from a position on |
| IpReassembler.Reassembler.Scan | lwip/ip_frag.c:202-222 | The scan passes if and only if all units are there but those of the byte it skips, and none beyond the length in the last byte |
| IpReassembler.Reassembler.Take | lwip/ip_frag.c:138-197 | One fragment goes into buffer, bitmap, flag and length |
| IpReassembler.Reassembler.Tick | lwip/ip_frag.c:93-102 | `ip_reass_timer` refines the model |
| IpReassembler.Reassembler.ClearBitmap | lwip/ip_frag.c:125-126 | A cleared bitmap stands for no unit |
| PbufRuns.RunExact | lwip/pbuf.c:205-909 | In every state of every run of alloc, free, ref, cat, chain, dechain, realloc and take: each count is the number of links plus outside holders, free and used pool pbufs total PBUF_POOL_SIZE, and the live pbufs are exactly those that a holder can reach |
| PbufRuns.RunGood | lwip/pbuf.c:205-909 | The pool, the counts and the absence of cycles hold in every state of every run |
| PbufRuns.StepGood | lwip/pbuf.c:205-909 | Every operation keeps the three of them |
| PbufRuns.InitGood | lwip/pbuf.c:96-130 | What `pbuf_init` leaves is a state to start from, with nothing held |
| PbufRuns.NothingLeaks | lwip/pbuf.c:96-909 | In every run, once nobody holds a pbuf any more, none is live and the whole pool is free |
| Pbufs.Pbufs.constructor | lwip/pbuf.c:96-130 | The loop of `pbuf_init` links all pbufs of the pool together in order |
| PbufCycles.LiveIffHeld | lwip/pbuf.c:539-601 | With exact counts and no cycles, a pbuf is live if and only if an outside holder reaches it: none is given back early, none is lost |
| PbufCycles.CatAcyclic | lwip/pbuf.c:652-671 | Joining two chains that share nothing makes no cycle |
| PbufModel.ReleaseCounted | lwip/pbuf.c:539-601 | Giving up a reference leaves every count exact and no pointer to a pbuf given back |
| PbufModel.ReleaseElsewhere | lwip/pbuf.c:539-601 | It touches only the chain that is given up |
| PbufModel.GoneCounts | lwip/pbuf.c:539-601 | The number that `pbuf_free` returns is, modulo 256, by how many fewer are live |
| PbufModel.RefCountedIff | lwip/pbuf.c:630-641 | `pbuf_ref` keeps the count exact if and only if it was not 65535 |
| PbufModel.RefWraps | lwip/pbuf.c:630-641 | A pbuf with 65535 holders and one more has a count of 0 |
| PbufModel.CatCounted | lwip/pbuf.c:652-671 | `pbuf_cat` takes over the reference of the tail from the caller |
| PbufModel.CatJoins | lwip/pbuf.c:652-671 | The result is one chain with the bytes of both |
| PbufModel.CatWholeIff | lwip/pbuf.c:652-671 | Its `tot_len` fields are right at every pbuf if and only if the sum of the two fits 16 bits |
| PbufModel.CatWraps | lwip/pbuf.c:652-671 | Two pbufs of 40000 bytes joined have a `tot_len` of 14464 |
| PbufModel.ChainCounted | lwip/pbuf.c:690-696 | `pbuf_chain` leaves the caller its reference |
| PbufModel.ChainJoins | lwip/pbuf.c:690-704 | The chain has the bytes of both, and the tail one reference more |
| PbufModel.JoinElsewhere | lwip/pbuf.c:652-704 | Joining touches only the pbufs of the first chain, and the count of the tail |
| PbufModel.DechainCounted | lwip/pbuf.c:883-909 | `pbuf_dechain` keeps every count exact |
| PbufModel.PathDistinct | lwip/pbuf.c:539-601 | A chain never comes back to a pbuf |
| PbufPool.PoolTotal | lwip/pbuf.c:96-130 | Free and used pool pbufs total PBUF_POOL_SIZE |
| PbufPool.ReleasePool | lwip/pbuf.c:573-592 | `pbuf_free` returns pool pbufs to the pool and nothing else |
| PbufPool.AllocPoolGood | lwip/pbuf.c:242-303 | A pool allocation fails if and only if too few pbufs are free, and then changes nothing but their order; a chain it returns is whole, of the length asked for, and held once |
| PbufPool.OutOfPool | lwip/pbuf.c:272-283 | Giving back the unfinished chain restores memory and the set of free pbufs |
| PbufPool.GrownWhole | lwip/pbuf.c:252-299 | The chain under construction ends up with the right lengths at every pbuf |
| PbufPool.AllocPoolFills | lwip/pbuf.c:243-300 | The chain fills one pbuf after the other, the first with the room that the headers leave it, and every other live pbuf stays as it is |
| PbufShrink.ReallocKeeps | lwip/pbuf.c:389-443 | `pbuf_realloc` leaves a whole chain with exactly the first `new_len` bytes |
| PbufShrink.ReallocShortest | lwip/pbuf.c:389-443 | No pbuf more stays than it takes, and a chain that is short enough is left alone |
| PbufShrink.ChainOnly | lwip/pbuf.c:389-909 | Shortening a chain or taking it apart touches no pbuf outside it |
| PbufShrink.ReallocCounted | lwip/pbuf.c:389-443 | It keeps every count exact |
| PbufShrink.ReleaseCommutes | lwip/pbuf.c:434-441 | Cutting the link before or after giving up the rest comes to the same |
| PbufShrink.DechainSplits | lwip/pbuf.c:883-909 | `pbuf_dechain` leaves two whole chains with the bytes of the one, or gives the rest back if and only if nobody else held it |
| PbufShrink.DechainLengths | lwip/pbuf.c:883-909 | Whatever the lengths said before, the rest is told the length behind the first pbuf |
| PbufShrink.DechainRightIff | lwip/pbuf.c:883-909 | `pbuf_dechain` returns the tail if it is live and NULL if not, if and only if the number of pbufs given back is not a positive multiple of 256 |
| PbufShrink.DechainReturnsFreed | lwip/pbuf.c:883-909 | With a tail of 256 pbufs held by nobody else it returns the address of one given back |
| PbufTake.TakeGood | lwip/pbuf.c:792-872 | `pbuf_take` returns a chain of the same lengths and bytes with no PBUF_REF pbuf, with exact counts and an exact pool, or gives the chain up and returns NULL |
| PbufTake.TakeGivesUpIff | lwip/pbuf.c:792-872 | It gives up if and only if memory does not suffice for the PBUF_REF pbufs too large for the pool and those the pool has no pbuf left for |
| PbufTake.TakeElsewhere | lwip/pbuf.c:792-872 | It touches no pbuf outside the chain |
| Pbufs.Pbufs.Free | lwip/pbuf.c:539-601 | The loop of `pbuf_free` refines the model and returns the number given back, modulo 256 |
| Pbufs.Pbufs.RefUp | lwip/pbuf.c:630-641 | `pbuf_ref`, with its 16-bit count, refines the model |
| Pbufs.Pbufs.Cat | lwip/pbuf.c:652-671 | The loop of `pbuf_cat` refines the model |
| Pbufs.Pbufs.Chain | lwip/pbuf.c:690-696 | `pbuf_chain` refines the model |
| Pbufs.Pbufs.Dechain | lwip/pbuf.c:883-909 | `pbuf_dechain` refines the model |
| Pbufs.Pbufs.Realloc | lwip/pbuf.c:389-443 | `pbuf_realloc` refines the model on whole chains |
| Pbufs.Pbufs.StepOver | lwip/pbuf.c:412-425 | Its walk stops at the pbuf in which the new length ends, with the lengths on the way adjusted |
| Pbufs.Pbufs.EndOfChain | lwip/pbuf.c:434-442 | What is behind is given back and unlinked |
| Pbufs.Pbufs.PoolAlloc | lwip/pbuf.c:135-184 | `pbuf_pool_alloc` hands out the first free pbuf |
| Pbufs.Pbufs.Alloc | lwip/pbuf.c:242-303 | `pbuf_alloc` from the pool refines the model |
| Pbufs.Pbufs.AllocTail | lwip/pbuf.c:265-299 | Its loop builds the rest of the chain, or leaves nothing behind |
| Pbufs.Pbufs.BailOut | lwip/pbuf.c:279-282 | The failure path restores memory and pool |
| Pbufs.Pbufs.Take | lwip/pbuf.c:792-872 | The loop of `pbuf_take` refines the model |
| Pbufs.Pbufs.TakeOne | lwip/pbuf.c:803-867 | One turn of it leaves the rest of the chain to be taken to the same result |
| Pbufs.Pbufs.Replace | lwip/pbuf.c:824-853 | The replacement of one pbuf, relinked and released, refines the model |
| Pbufs.Pbufs.GetBuffer | lwip/pbuf.c:806-820 | The new buffer comes from the pool if it is large enough and one is free, else from RAM |
| Checksums.LwipChksum | lwip/inet.c:51-77 | Two folds give the exact one's complement sum for every length up to 65535, and no sum passes 32 bits |
| Checksums.InetChksum | lwip/inet.c:134-144 | `inet_chksum` is the checksum of RFC 1071, the same that `ipchksum` computes |
| Checksums.InetChksumPseudo | lwip/inet.c:84-126 | Over any pbuf chain, odd lengths anywhere, it equals exactly the flat checksum of pseudo header and concatenated bytes |
| Checksums.AddPbuf | lwip/inet.c:96-109 | One turn of its loop extends the running sum, byte order included, by one pbuf |
| Checksums.PseudoTail | lwip/inet.c:111-126 | Swapping back and adding the pseudo header complete it |
| Checksums.FoldAll | lwip/inet.c:101-103 | The folding loop terminates with the exact one's complement sum |
| Checksums.RunningAdds | lwip/inet.c:96-109 | The running sum of a concatenation from its parts, swapped when the second is odd |
| Checksums.PseudoSum | lwip/inet.c:114-119 | The terms added for the pseudo header sum up its twelve bytes |
| Checksums.IpChksum | etherboot/core/xbox_misc.c:11-36 | The bytewise `ipchksum` with its end-around carries is the same checksum, for any length |
| Checksums.Rfc1071Example | etherboot/core/xbox_misc.c:11-36 | The definition gives what section 3 of RFC 1071 computes for its example |
| Checksums.AddIpChksumsJoins | etherboot/core/xbox_misc.c:38-56 | Adding the checksums of two parts gives that of the concatenation, for all byte strings of either parity |
| Checksums.ImageChecksum | etherboot/core/elf_loader.c:301-335 | The image check compares with the checksum of header, program headers and segments concatenated, for segments and totals of any length |
| Checksums.LoadedJoins | etherboot/core/elf_loader.c:317-333 | The bytes summed up are those of the PT_LOAD segments, in order, and of no others |
| OnesSum.FoldSame | lwip/inet.c:70-74 | A fold keeps the one's complement sum and shrinks anything above 16 bits |
| OnesSum.SwapCarries | lwip/inet.c:104-107 | Swapping the bytes of a sum is shifting it by a byte |
| OnesSum.JoinCarries | lwip/inet.c:84-126 | The sum of a concatenation from its parts, by the parity of the first |
| OnesSum.ReceiverSeesZero | lwip/inet.c:134-144 | With the checksum stored in a field that was zero and aligned, the recomputed checksum is zero |
| Adler.ZlibAdler32 | include/zutil.h:98-124 | With deferred reduction and 16-byte unrolling it equals the definition that reduces at every byte (RFC 1950), for every buffer and reduced start value, and no sum passes 2^32 - 1 |
| Adler.Block | include/zutil.h:109-121 | One block of at most NMAX bytes |
| Adler.Do16 | include/zutil.h:77-81 | The unrolled macro adds 16 bytes without overflow |
| Adler.Do1 | include/zutil.h:77-77 | One byte, without overflow |
| Adler.RawReduces | include/zutil.h:120-121 | Reducing at the end of a block gives what reducing at every byte gives |
| Adler.NmaxLargest | include/zutil.h:73-75 | NMAX is the largest block for which the sums stay in 32 bits, as its comment claims, in both directions |
| Adler.Adler32Joins | include/zutil.h:98-124 | The Adler-32 of a concatenation is that of the second part started from that of the first |
| Adler.AdlerOfAbc | include/zutil.h:98-124 | The definition gives 0x024d0127 for "abc" |
| Timers.NeverEarly | lwip/sys.c:48-98 | In every run of sets, cancellations and waits that time out no earlier than asked, no timer fires before the delay it was set for has elapsed |
| Timers.OnTime | lwip/sys.c:48-98 | If the waits report exactly the time elapsed, each fires just then |
| Timers.InsertRefines | lwip/sys.c:157-201 | Insertion in the delta list is insertion in the sorted list of remaining times, behind ties, with every other remaining time unchanged |
| Timers.InsertPlaces | lwip/sys.c:157-201 | A timer set goes behind all that are due by then and in front of the first that is not; all the others stay |
| Timers.RemoveRefines | lwip/sys.c:208-236 | Cancellation removes the first match and changes no other remaining time |
| Timers.RemovePlaces | lwip/sys.c:208-236 | Of several of the same handler and argument the first goes; all the others stay, and nothing changes if there is none |
| Timers.ElapsedRefines | lwip/sys.c:84-95 | Waiting, or firing the first timer, lowers every other remaining time by the same amount |
| Timers.RemainingSorted | lwip/sys.c:157-201 | The remaining times of a delta list are sorted |
| Timers.InsertTotal | lwip/sys.c:157-201 | The last due time grows to the new delay at most, so no delta leaves 32 bits |
| TimerList.Timeouts.SysTimeout | lwip/sys.c:157-201 | On linked nodes with 32-bit times `sys_timeout` refines the insertion, with no underflow |
| TimerList.Timeouts.InFront | lwip/sys.c:183-186 | The case of a new first timer |
| TimerList.Timeouts.Behind | lwip/sys.c:188-199 | The case of a timer behind others |
| TimerList.Timeouts.FindPlace | lwip/sys.c:188-190 | The loop finds the node to follow and what is left of the delay there |
| TimerList.Timeouts.Splice | lwip/sys.c:190-196 | Linking in and shortening the successor |
| TimerList.Timeouts.Shorten | lwip/sys.c:191-193 | Only the successor's time changes, and it does not underflow |
| TimerList.Timeouts.SysUntimeout | lwip/sys.c:208-236 | `sys_untimeout` refines the removal |
| TimerList.Timeouts.Unlink | lwip/sys.c:222-232 | The match is unlinked and its time goes to the next timer |
| TimerList.Timeouts.GiveBack | lwip/sys.c:228-230 | The next timer's time grows by it, without overflow |
| TimerList.Timeouts.CutLink | lwip/sys.c:223-227 | Exactly the one node leaves the list |
| TimerList.Timeouts.Turn | lwip/sys.c:58-97 | One turn of the wait: the first timer fires if and only if it was due or the wait timed out, and otherwise the time waited is counted |
| TimerList.Timeouts.Expire | lwip/sys.c:71-78 | The first node leaves the list |
| TimerList.Timeouts.Count | lwip/sys.c:87-94 | The time waited is taken off the first timer, down to zero at most |
| Ports.TcpPorts.TcpNewPort | lwip/tcp.c:473-504 | If some port of the range is free the cyclic search terminates with one that none of the three lists has, and every port it passed over was taken |
| Ports.FewLeaveSomeFree | lwip/tcp.c:473-504 | Fewer PCBs than ports leave one free |
| Ports.UdpFreePort | lwip/udp.c:591-610 | The restarting search terminates, finds the lowest free port, and reports none if and only if every port but the last of the range is taken |
| Ports.LastPortMissed | lwip/udp.c:591-610 | An input of that kind: all ports but the last are taken, and the last is free |
| Ports.Pigeonhole | lwip/tcp.c:483-503 | A list shorter than the range leaves a port free |
| DhcpOptions.FindsFirst | lwip/dhcp.c:1309-1340 | In the field that the writers and the trailer emit, each requested code is found at its first occurrence with its bytes behind it, or reported absent |
| DhcpOptions.FindsInRegular | lwip/dhcp.c:1309-1340 | The same in every field without overloading whose options do not run past it, whoever wrote it, with an END option or without |
| DhcpOptions.RegularParses | lwip/dhcp.c:1309-1340 | Such a field is a row of options and an end |
| DhcpOptions.FindBody | lwip/dhcp.c:1309-1340 | The same inside any larger field, whatever follows the END option |
| DhcpOptions.BodyRegular | lwip/dhcp.c:1309-1340 | What the writers emit never runs past the field, which is what the lookup relies on |
| DhcpOptions.Message.Append | lwip/dhcp.c:1003-1031 | Header and bytes written one by one append the encoding of one option |
| DhcpOptions.Message.Option | lwip/dhcp.c:1003-1009 | `dhcp_option` appends code and length |
| DhcpOptions.Message.OptionByte | lwip/dhcp.c:1013-1017 | `dhcp_option_byte` appends one byte |
| DhcpOptions.Message.OptionShort | lwip/dhcp.c:1018-1023 | `dhcp_option_short` appends two bytes, high byte first |
| DhcpOptions.Message.OptionLong | lwip/dhcp.c:1024-1031 | `dhcp_option_long` appends four bytes, high byte first |
| DhcpOptions.Message.OptionTrailer | lwip/dhcp.c:1286-1298 | `dhcp_option_trailer` turns the options written into the field with END and padding |
| DhcpOptions.UnfoldReply | lwip/dhcp.c:1043-1101 | Over any chain of pbufs that are not empty, message and options come out as the concatenated bytes |
| DhcpOptions.CopyOut | lwip/dhcp.c:1060-1099 | The copy loop yields the next bytes of the chain and where to go on |
| DhcpOptions.GetOptionPtr | lwip/dhcp.c:1309-1340 | The walk over a regular field without overloading agrees with the specified lookup |
| Arp.RunGood | lwip/etharp.c:164-451 | In every run of updates, queries and ticks no address has two entries, and a hit returns the Ethernet address last learned for it |
| Arp.StepGood | lwip/etharp.c:164-451 | Every operation keeps that |
| Arp.PickPicks | lwip/etharp.c:206-250 | The search gives the first empty entry, else a stable one of the greatest `ctime`, and fails exactly if all are pending |
| Arp.PendingKept | lwip/etharp.c:331-451 | No insertion evicts a pending entry: it stays, or becomes stable for its own address |
| Arp.UpdateLearnsIff | lwip/etharp.c:331-451 | What an update learns for an address is found from then on, if and only if the address has an entry or one can be had for it |
| Arp.QueryFindsIff | lwip/etharp.c:754-801 | A query leaves the address with an entry in use, a pending one if it had none, if and only if it has one or one can be had |
| Arp.OthersKept | lwip/etharp.c:331-451 | An update or a query changes no entry but that of the address, or else the one given out |
| Arp.StableLivesIff | lwip/etharp.c:164-198 | A stable entry is given up after exactly ARP_MAXAGE ticks |
| Arp.PendingLivesIff | lwip/etharp.c:754-801 | A new pending entry survives the first tick if and only if its place was recycled from a stable entry or its old `ctime` was 0 or 255, since `ctime` is not reset |
| Arp.PendingGoneAtOnce | lwip/etharp.c:164-198 | On a table ticked once since `etharp_init`, a new pending entry is gone after one tick |
| ArpTable.ArpTable.constructor | lwip/etharp.c:144-156 | `etharp_init` empties the table |
| ArpTable.ArpTable.FindArpEntry | lwip/etharp.c:206-250 | The loop refines the choice and cleans a recycled entry |
| ArpTable.ArpTable.UpdateArpEntry | lwip/etharp.c:331-451 | `update_arp_entry` on the array refines the specification |
| ArpTable.ArpTable.EtharpQuery | lwip/etharp.c:754-801 | The table part of `etharp_query` refines the specification; it fails if and only if the address has no entry and none can be had |
| ArpTable.ArpTable.EtharpTmr | lwip/etharp.c:164-198 | `etharp_tmr`, with its 8-bit `ctime`, refines the specification |
| ArpTable.ArpTable.EtharpLookup | lwip/etharp.c:673-681 | The lookup of `etharp_output` returns a stable match only |

## Left out

- TcpReceiver.Pcb.Receive: segments with SYN or FIN, and the copying between packet buffers when a
  trimmed header crosses one (`lwip/tcp_in.c:920-933`); the payload is a byte sequence.
- TcpReceive.RunDeliversStream: runs with the overrun described above, for which it is false; the segment
  structure that the replacement leaks is not modelled.
- TcpSend.RunGood: runs with a misread acknowledgement number, for which it is false; so for
  TcpEndToEnd.ReceivedIsPrefixOfWritten, where it is not shown what the receiver then gets.
- TcpDialogue.Progress: states in which a SYN or FIN is still to be received.  It shows a way to go on, not that
  the retransmission timer takes it or that the network delivers.
- TcpDialogue.TalkDelivers: segments 2^31 bytes old, acknowledgements 0x7000_0000 bytes old.
- TcpEndToEnd.RunGood: deliveries of data segments 2^31 or more away from `rcv_nxt`, and those with SYN or FIN.
- TCP queues are sequence fields that the methods reassign, not linked nodes: aliasing between segments is
  not captured.  The timer list does have linked nodes.
- TCP: round-trip estimates, congestion window (the window is a parameter), window updates, keepalive, the
  scheduling of acknowledgements, the flags and checksums of outgoing headers, opening and closing
  connections; an active open counts `snd_buf` differently by one.
- ElfLoader.Loader.Feed: parsing and identifying the ELF header (the program headers are given), notes,
  64-bit and FreeBSD images, and what happens when the kernel is started; blocks of 2^31 bytes or more, files
  of 2^32 bytes or more, where `loc` wraps, accepted images with segments that wrap (see above), and a file
  that ends before one of its segments does.
- Heap.Heap.Malloc: semaphores, statistics, and `mem_reallocm`.
- HeapModel.RunLowest: runs with a shrink that leaves a lower free block, where the claim is false.
- IpReassembler.Reassembler.Reass: a fragment that ends exactly at the end of the buffer, which writes outside
  the bitmap, and one whose length field goes beyond its chain, which reads outside it; the rewriting of the IP header of the result, and the copy of the result into a pool chain.
- IpReassembler.CopyFromPbuf: a length that goes beyond the end of the chain, where the code follows a null link.
- IpFragmenter.Fragmenter.Frag: headers with options (`ip_frag` refuses none and copies only 20 bytes of
  header), an MTU above 1500 that its buffer could not hold, an MTU below 28, for which `nfb` is 0 and the loop
  never ends, and the header checksum of each fragment.
- Pbufs.Pbufs.Alloc: PBUF_RAM, PBUF_ROM and PBUF_REF buffers get their address as a parameter; the shrinking
  of their memory in `pbuf_realloc`, payload alignment, `pbuf_header`, the packet queue functions, and the
  locks of the pool.
- Pbufs.Pbufs.Realloc: chains whose length fields are already wrong.
- Pbuf memory is a map from addresses to buffers, not linked objects.
- PbufRuns.RunExact: `pbuf_ref` and `pbuf_chain` on a count of 65535.
- `inet_chksum_pbuf`, whose byte swap never happens for want of parentheses, and `inet_ntoa`.
- TimerList.Timeouts.Turn: one turn of the loop at a time; the handler called is an event of its own in a run.
  The build sets `NO_SYS` and does not compile this file.
- Ports.TcpPorts.TcpNewPort: with no free port in the range, where the search never ends.
- DhcpOptions.GetOptionPtr: option overloading, and options that run past the end of their field.
- DhcpOptions.UnfoldReply: replies shorter than the fixed part of a message or with empty buffers, for which
  the copy loop leaves the chain; the failure of its allocations.
- The DHCP state machine and its timers.
- ArpTable.ArpTable.UpdateArpEntry: the flag that forbids an insertion, which `ETHARP_ALWAYS_INSERT` overrides
  in this build; the six bytes of an Ethernet address count as one number.
- ArpTable.ArpTable.EtharpQuery: sending the request and queueing packets; broadcast, multicast and gateway selection in `etharp_output`.
- `SO_REUSE`, `IP_FORWARD`, the web server, flash, video, USB, IDE, PCI and the other hardware, boot menus,
  SHA-1, RC4, decompression and the C library.
