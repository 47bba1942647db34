# PCSX2: buffers, rings and lazy clocks

A model of the places in PCSX2 where buffered, threaded or lazy bookkeeping must agree with a
simple machine, and proofs that it does.

- `GifParser`, `GifLayout`, `GifScan`, `GsCommands`, `GifPath`, `GifUnit`: the GIF. Three paths
  gather packets in large buffers, a parser finds their ends in whatever pieces the data arrives,
  an arbiter lets the paths take turns, and the GS thread reads finished packets out of the buffers
  while they are being realigned and refilled. `GifParser` is the specification: the parser on a
  sequence of bytes. `GifLayout` says what it reads, field by field and bit by bit, and `GifScan`
  compares it with a plain scan. `GifPath` works in the buffer, with the GS thread reading at every
  wait and after it.
  The ghost sequences `received`, `handed` and `copied` say what the GS thread has read, what was
  handed to it, and all that was copied in: what was received, with what the queued commands will
  read, is what was handed over, and that, with the unsent bytes, is what was copied.
- `WrappedCopy`, `MtgsRing`, `MtgsSignals`: the ring to the GS thread and the semaphores by which
  the two threads put each other to sleep.
- `MtvuRing`, `MtvuHandoff`: the ring to the VU1 thread, and how a VU program's packets get from
  there to the GS thread.
- `TimerSpec`, `EeTimers`, `SyncCounters`: the EE's timers, computed when needed and scheduled by
  deadline, against a timer that is stepped every cycle; and the scanline and vsync counters.
- `DataCache`: the EE's two-way write-back cache against flat memory.
- `DmaChain`, `GifFifo`, `Mfifo`: the GIF's DMA channel and the two rings it feeds.
- `IopEvents`: the IOP's pending events.
- `Words`, `Sequences`: 32-bit cycle counts that wrap, and shared facts.

Places where the code differs from what it was meant for: the spin-wait of the MTGS ring is never
taken (`MtgsSignals.NeverSpins`); a record that wraps in the MTVU ring while the reader is at its
front can always lead to lost records (`MtvuRing.WrapCanLose`); an overdue timer sets the deadline
to 4 even if that is late (`EeTimers.DeadlineLate`, `EeTimers.LateDeadline`); a timer read on the
cycle it resets, before its update, is not at zero yet (`TimerSpec.ReadIsHardware`); a branch too
far away stays late (`IopEvents.FarBranchStaysLate`, `IopEvents.FarRun`); how much is delivered of
a DMA tag's data that begins in mapped memory and runs out of it depends on how it is split
(`DmaChain.SplitsAgreeExactly`).

What comes from outside is a parameter: how many words the GIF accepts, which commands the GS
thread has run by then, which events a callback raises, how many cycles pass.

## Model

| member | source | states |
|---|---|---|
| `GifParser.DecodeTag` | pcsx2/Gif_Unit.h:79-105 | A tag's data length is a whole number of quadwords and, for a tag with A+D registers, exactly sixteen bytes for every register write its loop will step through. |
| `GifLayout.TagReadBack` | pcsx2/Gif_Unit.h:79-126 | Fields laid out as a tag are read back: NLOOP, EOP, the format, the number of registers (16 for 0), the registers, whether A+D is among them, and the length, which holds the data: a quadword for each register of each loop, half of one, rounded up, or NLOOP of them. |
| `GifLayout.EveryTag` | pcsx2/Gif_Unit.h:36-47 | Any sixteen bytes are some proper fields laid out, so that what is read of laid-out fields says all. |
| `GifParser.PackedLeftZero` | pcsx2/Gif_Unit.h:69-77 | The loop count of a packed tag runs out exactly when no register write is left. |
| `GifParser.HandleAD` | pcsx2/Gif_Unit.cpp:27-82 | A register write stalls exactly if it is a SIGNAL that finds the CSR bit set and none queued, and then one is queued; otherwise the queue does not change. |
| `GifLayout.WriteHandled` | pcsx2/Gif_Unit.cpp:27-82 | A write laid out in memory, data in the low four bytes and mask behind it: SIGNAL and LABEL take each bit of the register from the data where the mask has a one and keep it elsewhere, FINISH sets its bit, and nothing else changes. |
| `GifParser.HandleDelivers` | pcsx2/Gif_Unit.cpp:53-69 | While none is queued, a parsed SIGNAL is applied at once or queued: SIGID stays the masked fold of all SIGNALs parsed, in order, but for the queued one. |
| `GifParser.AcknowledgeDelivers` | pcsx2/GS.cpp:97-111 | The acknowledge applies the queued SIGNAL exactly once and leaves none; SIGID is then the fold of all SIGNALs. |
| `GifLayout.AcknowledgeMerges` | pcsx2/GS.cpp:97-111 | The acknowledge merges a queued SIGNAL into SIGID bit by bit and keeps the CSR bit set, or else clears that, and changes nothing else. |
| `GifLayout.FoldBit` | pcsx2/Gif_Unit.cpp:65 | The same for a log of writes of any length. |
| `GifLayout.SigidBits` | pcsx2/Gif_Unit.cpp:53-69 | With no SIGNAL queued, each bit of SIGID is what the last SIGNAL parsed that has the bit in its mask gave it. |
| `GifParser.QueuedSignalWouldBeLost` | pcsx2/Gif_Unit.cpp:54-62 | A SIGNAL parsed while another one is queued would never reach SIGID: why parsing has to stop. |
| `GifParser.Step` | pcsx2/Gif_Unit.h:279-351 | A turn of the parser consumes at least sixteen bytes or ends a tag; a completed packet's size is what was gathered and consumed; a turn that waits consumes nothing. |
| `GifParser.Exec` | pcsx2/Gif_Unit.h:272-352 | A call ends, keeps the parser's state sound, and accounts for every byte it consumed in the packet's size. |
| `GifParser.StepAppend` | pcsx2/Gif_Unit.h:279-351 | Bytes behind those a turn consumed do not matter, and a turn that waited for data can be taken again. |
| `GifParser.ExecAppend` | pcsx2/Gif_Unit.h:272-352 | A call on more data equals the call on less data, followed by a call on the rest if the first one ran out of data. |
| `GifParser.DrainAppend` | pcsx2/Gif_Unit.h:272-352 | Chunk independence: feeding data in two pieces completes the same packets, with the same sizes and cycles, and ends in the same state as feeding it at once; also when a SIGNAL stalls. |
| `GifParser.FeedIsDrain` | pcsx2/Gif_Unit.h:272-352 | The same for any number of pieces, each looked at together with what the last one left. |
| `GifParser.ExecIgnoresSize` | pcsx2/Gif_Unit.h:272-352 | How much of a packet was handed over before does not change where parsing stops, with which SIGNALs, or in which state but for that size. |
| `GifParser.RestSizeAgrees` | pcsx2/Gif_Unit.h:306-318 | Stepping through A+D registers one by one consumes exactly the length of the tag's data. |
| `GifParser.PacketSizeAgrees` | pcsx2/Gif_Unit.h:272-352 | From a packet boundary the parser completes exactly the packet that the size computation predicts, and waits exactly when that runs out of data. |
| `GifParser.GetGSPacketSize` | pcsx2/Gif_Unit.h:476-489 | The loop returns the size of the packet cut to the caller's size. For path 1 a packet that does not fit into VU memory counts as empty, or as all the caller has exactly if one of its tags ends behind that and within VU memory. |
| `GifParser.StepDelivers` | pcsx2/Gif_Unit.h:306-317 | No turn parses a SIGNAL while one is queued, except behind the last register of the packet's last tag, where none follows. |
| `GifParser.ExecDelivers` | pcsx2/Gif_Unit.h:272-352 | Every call keeps all SIGNALs in order; a call that runs out of data leaves none queued, a stalled one leaves one. |
| `GifScan.ExecScans` | pcsx2/Gif_Unit.h:272-352 | A call handles exactly the writes that a plain scan of the data finds whose register, counted in turn, is A+D, in their order, and counts two cycles for each tag and those of its data; a call that stalls handles them as far as that. |
| `GsCommands.LiesSum` | pcsx2/Gif_Unit.h:230-251 | readAmount alone tells whether part of the last lap is still unread, and how many bytes the oldest unread one is away. |
| `GsCommands.PopLies` | pcsx2/MTGS.cpp:400-407 | Running the oldest command keeps the layout of the others; an unread lap end only shrinks from its front. |
| `GsCommands.TurnLies` | pcsx2/Gif_Unit.h:241-250 | Moving the packet to the front, with a blank for the gap up to the limit, leaves a layout in which the old lap is unread behind the new one. |
| `GsCommands.LiesKeep` | pcsx2/Gif_Unit.h:230-268 | A write that stays off the bytes that lie in wait changes nothing of what the GS thread is going to read. |
| `GsCommands.AddBytes` | pcsx2/Gif_Unit.cpp:111-124 | A completed packet adds its bytes behind all bytes still to be read, and its size to readAmount. |
| `GsCommands.GapBytes` | pcsx2/Gif_Unit.cpp:126-130 | A blank packet is counted but nothing is read for it. |
| `GifPath.Path.constructor` | pcsx2/Gif_Unit.h:160-211 | An empty path holds the invariant. |
| `GifPath.Path.GsReadOne` | pcsx2/MTGS.cpp:400-407 | The GS thread reads a command's bytes as they were when it was queued, also while the current packet is being moved: what it has received stays a prefix of what was handed over. |
| `GifPath.Path.MtgsReadWait` | pcsx2/Gif_Unit.h:218-227 | A wait stands for as many of the source's as it takes until a command is run, each of which may return with none run; it changes nothing else that matters. That the loops around it end holds only if such a wait comes. |
| `GifPath.Path.AddCompleted` | pcsx2/Gif_Unit.cpp:111-124 | Hands over the packet's bytes, in order, and keeps the invariant. |
| `GifPath.Path.AddBlank` | pcsx2/Gif_Unit.h:241-244 | The blank packet accounts for the skipped bytes, so that readAmount tells the new lap from the old one. |
| `GifPath.Path.MoveToFront` | pcsx2/Gif_Unit.h:246-247 | The overlapping move writes no byte that is queued and not yet read. |
| `GifPath.Path.WaitForFront` | pcsx2/Gif_Unit.h:230-240 | The wait ends, and then no unread byte lies where the packet is going to be moved to. |
| `GifPath.Path.WaitForRoom` | pcsx2/Gif_Unit.h:258-264 | The wait ends, and then no unread byte lies where the new data is going to be copied to. |
| `GifPath.Path.MoveUnsent` | pcsx2/Gif_Unit.h:241-247 | With the GS thread reading before the move, between the blank and the move, and behind it, no unread byte is overwritten. |
| `GifPath.Path.RealignPacket` | pcsx2/Gif_Unit.h:230-251 | The packet starts at the front with the same parser state and the same unparsed bytes; nothing handed over or copied is lost. |
| `GifPath.Path.Append` | pcsx2/Gif_Unit.h:266-267 | Copies behind the bytes in use and touches nothing unread. |
| `GifPath.Path.CopyGSPacketData` | pcsx2/Gif_Unit.h:253-268 | If the pending bytes and the new ones fit, they are appended, after a move to the front exactly if they do not fit behind what is in use; every byte handed over is still there to be read as it was. |
| `GifPath.Path.ReadTag` | pcsx2/Gif_Unit.h:280-304 | Reading a tag in the buffer is the specification's turn for a new tag, with its early exits. |
| `GifPath.Path.StepRegister` | pcsx2/Gif_Unit.h:306-317 | Stepping over one A+D register in the buffer is the specification's turn for it. |
| `GifPath.Path.CloseTag` | pcsx2/Gif_Unit.h:320-351 | The end of a tag: with EOP the packet is complete and the path rests, as specified. |
| `GifPath.Path.RunParser` | pcsx2/Gif_Unit.h:279-351 | The loop in the buffer, with its realigns, computes exactly what the specification says of the unparsed bytes; it terminates. |
| `GifPath.Path.AlignedTurn` | pcsx2/Gif_Unit.h:279-288 | A turn of the loop is the specification's, and moves the packet to the front exactly if its next tag is there and lies behind the limit. |
| `GifPath.Path.Rewind` | pcsx2/Gif_Unit.h:334-345 | The bytes behind the packet are given back, and only they. |
| `GifPath.Path.ExecuteGSPacket` | pcsx2/Gif_Unit.h:272-352 | Completes, waits or stalls as specified; bytes are cut only behind a packet completed on a masked path 3, and the cut is the rewind count. |
| `GifPath.Path.FlushToMTGS` | pcsx2/Gif_Unit.h:560-568 | Hands over the finished tags of an incomplete packet; all that was copied is then handed over or unparsed, and what the parser waits for is the same. |
| `GifPath.Path.SlicePacket` | pcsx2/Gif_Unit.h:585-602 | Slicing hands over complete tags only, if there are more than sixteen bytes of them: nothing is taken back from the buffer position, as a tag under way is never an image tag. |
| `GifPath.Path.ExecuteAndAdd` | pcsx2/Gif_Unit.h:580-614 | A call that completes a packet makes what is left to parse smaller and hands the packet over; what was copied is kept but for the cut, and a packet completed on a masked path 3 leaves nothing behind it. |
| `GifPath.Path.DoneIsHanded` | pcsx2/Gif_Unit.h:213-216 | A path that is done has handed over all bytes that were copied to it. |
| `GifUnit.Unit.NextPath` | pcsx2/Gif_Unit.h:616-632 | The arbiter's choice is the first path that has data and may run, and none exactly if there is none. |
| `GifUnit.Unit.RunActive` | pcsx2/Gif_Unit.h:580-614 | A completed packet of the active path goes to the GS thread; otherwise a SIGNAL is queued or the path needs data. Bytes are cut only from a masked path 3, and behind its packet all are. |
| `GifUnit.Unit.Select` | pcsx2/Gif_Unit.h:616-639 | Selects that path and clears its queued bit, so that no path with a smaller number has anything left; if there is none, the transfer ends on a resume or behind path 1. |
| `GifUnit.Unit.InterruptPath3` | pcsx2/Gif_Unit.h:585-604 | An interrupted image keeps all its bytes and stays undone, and at most sixteen of those parsed are not handed over. |
| `GifUnit.Unit.Round` | pcsx2/Gif_Unit.h:579-640 | Every round that is followed by another one makes the measure smaller: a first interruption of path 3, or bytes parsed, or a path chosen. Path 3 is interrupted only on an image in intermittent mode, with no SIGNAL queued and another path waiting, and the loop does not end in front of a path that could be let in. |
| `GifUnit.Unit.Arbitrate` | pcsx2/Gif_Unit.h:579-640 | The loop terminates; nothing but the cut of a masked path 3 is lost, and nothing that could still run is left. With no SIGNAL queued, a path with something left waits only for one that comes before it, or for one that held the bus already, needs data, and is no image of path 3 in intermittent mode. |
| `GifUnit.Unit.FlushLast` | pcsx2/Gif_Unit.h:641-647 | What is complete of the active path's packet is handed over if all of its data is parsed, and nothing is if some is left. |
| `GifUnit.Unit.Execute` | pcsx2/Gif_Unit.h:572-656 | Per path, packets are only added to those handed over, in order, and the bytes copied are all kept but for the rewind, which is returned to path 3 only. No path waits that could have been served (see Arbitrate). OPH is set exactly while a path is active: behind a resume only one that needs data is, and otherwise path 2 or 3 keeps the bus behind its packet unless path 1 got in. If all data of the active path is parsed, all is handed over, also without an end of packet. |
| `GifUnit.Unit.WhoMayGo` | pcsx2/Gif_Unit.h:658-680 | While path 3 transfers an image in intermittent mode, path 1 and DIRECT data get in and DIRECTHL data does not; otherwise only the active path's data does, and path 3 begins a packet only if it is not masked. |
| `GifUnit.Unit.NothingLeft` | pcsx2/Gif_Unit.h:616-639 | With no path left to choose and no SIGNAL queued, all bytes but those of a masked path 3 are with the GS thread. |
| `GifUnit.Unit.TransferGSPacketData` | pcsx2/Gif_Unit.h:494-536 | A transfer is taken whole, less the rewind, or not at all and then changes no path but notes which one waits; its bytes go behind those copied to its own path, and no path is left waiting that could be served. |
| `GifUnit.Unit.AcknowledgeSignal` | pcsx2/GS.cpp:97-113 | After the acknowledge no SIGNAL is lost, and paused transfers have run as far as they can; a path is active then only if it needs data or a SIGNAL is queued. |
| `WrappedCopy.MemCopyWrappedDest` | pcsx2/GS.h:490-501 | Writes the source into the ring from the position on, over the end if need be, and nothing else; returns the wrapped end. |
| `WrappedCopy.MemCopyWrappedSrc` | pcsx2/GS.h:504-516 | Reads the words from the position on, over the end if need be. |
| `WrappedCopy.ReadBack` | pcsx2/GS.h:490-516 | What was written wrapped is read back wrapped, from any position. |
| `WrappedCopy.ReadPast` | pcsx2/GS.h:490-501 | A wrapped write leaves alone every window that it does not reach. |
| `MtgsRing.FreeRoomIsFree` | pcsx2/MTGS.cpp:683-712 | The room the writer computes from the two positions is the ring's size less all that is published and not read. |
| `MtgsRing.FillWordKeeps` | pcsx2/MTGS.cpp:123-140 | Each payload word written goes behind everything pending, also over the end of the ring. |
| `MtgsRing.FillIsCopy` | pcsx2/MTGS.cpp:123-140 | Word by word the ring becomes what the wrapped copy of the payload makes of it, which reads back as the payload. |
| `MtgsRing.PatchTagKeeps` | pcsx2/MTGS.cpp:654-681 | The length computed from the two positions is the payload's length, so that the tag does not change. |
| `MtgsRing.PublishKeeps` | pcsx2/MTGS.cpp:796-821 | Moving the write position publishes exactly the packet that was written. |
| `MtgsRing.ReadWordKeeps` | pcsx2/MTGS.cpp:428-434 | The reader's words are the payload's, also over the end of the ring. |
| `MtgsRing.AdvanceKeeps` | pcsx2/MTGS.cpp:526-533 | The reader moves by the size the writer moved by, and has read exactly the oldest packet. |
| `MtgsRing.RunKeeps` | pcsx2/MTGS.cpp:274-566 | The invariant holds in every state of every interleaving. |
| `MtgsRing.FirstInFirstOut` | pcsx2/MTGS.cpp:654-821 | In every interleaving the packets read are a prefix of those published, with their payloads; the ring is never full; equal positions mean that all is read. |
| `MtgsRing.GsReadsAll` | pcsx2/MTGS.cpp:274-533 | From any reachable state the GS thread alone reads all that is published, in finitely many steps, and then a stalled writer has room. |
| `MtgsRing.EeGoesOn` | pcsx2/MTGS.cpp:654-821 | In every reachable state the EE thread can take its next step, and between packets begin any that is smaller than the ring. |
| `MtgsSignals.NeverSpins` | pcsx2/MTGS.cpp:715-764 | Whenever the writer has to stall, what it waits for exceeds the threshold for sleeping: the spin-wait is never taken. |
| `MtgsSignals.EeKeepsRing` | pcsx2/MTGS.cpp:156-167 | A packet sent leaves room in the ring, and the frame count is the number of vsyncs sent and not presented. |
| `MtgsSignals.EeKeepsSignals` | pcsx2/MTGS.cpp:683-765 | Every EE step keeps exactly one ring wake-up on its way while the writer is in its sleep loop and none otherwise. |
| `MtgsSignals.EeKeepsVsync` | pcsx2/MTGS.cpp:156-167 | Every EE step keeps exactly one vsync wake-up on its way while the EE listens. |
| `MtgsSignals.GsKeepsSignals` | pcsx2/MTGS.cpp:526-562 | Every GS step keeps that for the ring, including its post when it runs out of packets. |
| `MtgsSignals.GsKeepsVsync` | pcsx2/MTGS.cpp:439-445 | Every GS step keeps that for vsyncs, including its post when it runs out of packets. |
| `MtgsSignals.SleepsAtLimit` | pcsx2/MTGS.cpp:156 | The EE goes on behind a vsync exactly if fewer vsyncs than the limit, besides its own, wait in the ring to be presented; else it sleeps. |
| `MtgsSignals.QueueBounded` | pcsx2/MTGS.cpp:141-167 | In every interleaving the ring holds at most three vsyncs over the limit. |
| `MtgsSignals.RingSleepStep` | pcsx2/MTGS.cpp:274-566 | While the writer sleeps, the GS thread can take a step and each step brings the wake-up nearer. |
| `MtgsSignals.VsyncSleepStep` | pcsx2/MTGS.cpp:274-566 | The same while the EE sleeps for a vsync. |
| `MtgsSignals.RingSleepEnds` | pcsx2/MTGS.cpp:535-562 | From any reachable state a sleeping writer is woken after finitely many steps of the GS thread alone. |
| `MtgsSignals.VsyncSleepEnds` | pcsx2/MTGS.cpp:439-445 | The same for a sleep that waits for a vsync. |
| `MtgsSignals.EeGoesOn` | pcsx2/MTGS.cpp:683-821 | In every reachable state the EE can take a step unless it sleeps, and can send any packet smaller than the ring. |
| `MtgsSignals.GsComesToRest` | pcsx2/MTGS.cpp:274-566 | Left alone, the GS thread goes to sleep after finitely many steps, with every post of its event taken. |
| `MtgsSignals.NoLostWakeUp` | pcsx2/MTGS.cpp:240-272 | In every interleaving a sleeper is woken and goes on; at most one token is outstanding and none left over; and the ring position is down when the sleep loop is left. |
| `MtvuRing.ReadRecord` | pcsx2/MTVU.cpp:101-162 | Reading a record's words one by one, the reader stops exactly behind its last one and has the record. |
| `MtvuRing.WriteOutside` | pcsx2/MTVU.cpp:164-203 | The words written lie where nothing is left to read. |
| `MtvuRing.EeKeeps` | pcsx2/MTVU.cpp:188-272 | Every writer step keeps unread records tiling read to write, or read to NULL and the front to write, as long as the reader is not at the front when the writer wraps. |
| `MtvuRing.VuKeeps` | pcsx2/MTVU.cpp:101-162 | Every reader step keeps that, including passing the NULL record. |
| `MtvuRing.FirstInFirstOut` | pcsx2/MTVU.cpp:101-272 | For records of at most 4096 words and wraps behind the reader, the records executed are a prefix of those committed in every interleaving; the ring looks empty exactly when all are executed, the last one is committed as read, and no NULL record is left to pass. |
| `MtvuRing.WrapLosesRecords` | pcsx2/MTVU.cpp:188-203 | A wrap keeps the invariant exactly if the committed read position is not 0. It keeps an empty-looking ring honest exactly if that, or nothing is left to execute. A reader waiting at 0 is then stuck until the next record, which is written over the oldest unread one. |
| `MtvuRing.WrapCanLose` | pcsx2/MTVU.cpp:164-203 | From every state of the invariant in which the writer wraps while the committed read position is 0, whatever the reader is doing, the threads can go on to execute records that are no prefix of those committed, in any ring of more than 4100 words. |
| `MtvuRing.RunCanLose` | pcsx2/MTVU.cpp:164-203 | So can every run that comes to such a wrap though all wraps before were behind the reader: the condition can be dropped at none. |
| `MtvuRing.LosingRun` | pcsx2/MTVU.cpp:188-203 | In a ring of any size that holds a record, a run that fills it before anything is read, wraps, and never executes the first record. |
| `MtvuHandoff.EeKeeps` | pcsx2/MTVU.cpp:320-333 | Committing a program and sending its command keeps commands and programs paired. |
| `MtvuHandoff.VuKeeps` | pcsx2/Gif_Unit.h:394-403 | Finishing a packet adds it to readAmount before it is queued, once for each program. |
| `MtvuHandoff.GsKeeps` | pcsx2/MTGS.cpp:409-422 | When the GS thread takes a packet the queue holds one, and it is the next one produced. |
| `MtvuHandoff.PacketsMatchCommands` | pcsx2/Gif_Unit.h:394-420 | In every interleaving the n-th command gets the n-th program's packet, commands never exceed programs, and at rest readAmount is the sum over the packets queued. |
| `MtvuHandoff.WaitIsAnswered` | pcsx2/MTVU.cpp:109-121 | A GS thread that waits for a packet is waiting for a program that will run or a post that will be made. |
| `MtvuHandoff.VuAnswers` | pcsx2/MTVU.cpp:109-121 | A waiting GS thread is posted to after at most four steps of the VU thread alone, for a queue of any size but none. |
| `MtvuHandoff.NobodyStuck` | pcsx2/MTVU.cpp:109-121 | A thread that has something to do, or has been posted to, can take its step. |
| `DataCache.OnlyOne` | pcsx2/Cache.cpp:43-56 | A host line is never held by two lines of the cache, even if it is reached through different virtual pages. |
| `DataCache.SeenHeld` | pcsx2/Cache.cpp:43-56 | What a program sees of a held line is the cache's copy. |
| `DataCache.WriteBack` | pcsx2/Cache.cpp:63-77 | Writing a dirty line back changes nothing a program can see. |
| `DataCache.Replace` | pcsx2/Cache.cpp:80-99 | Replacing a clean line by one from memory changes nothing a program can see. |
| `DataCache.WriteHit` | pcsx2/Cache.cpp:103-120 | A write into a held line changes what a program sees there and nowhere else. |
| `DataCache.Drop` | pcsx2/Cache.cpp:265-302 | Dropping a line shows memory again there and nowhere else. |
| `DataCache.AlignedOffset` | pcsx2/Cache.cpp:103-249 | The places in the line that the accesses of each width compute are the address's own for aligned accesses. |
| `DataCache.ReadWritten` | pcsx2/Cache.cpp:103-249 | A value written is read back, by a read of the same place and width. |
| `DataCache.SameOffset` | pcsx2/Cache.cpp:33-41 | All aliases of a host line fall into the same set. |
| `DataCache.Cache.MapsTo` | pcsx2/Cache.cpp:33-41 | The page entry that is the distance from a page of addresses to a page of memory takes each address to its place in that page. |
| `DataCache.Cache.Victim` | pcsx2/Cache.cpp:59 | The line to be replaced next is one of the set's two: the first one after a reset, and then (see GetFreeCache) the other one each time. |
| `DataCache.Cache.GetFreeCache` | pcsx2/Cache.cpp:33-101 | Holds the address's line afterwards; flat memory is unchanged; a hit changes nothing; the way just filled is not the set's next victim. |
| `DataCache.Cache.ReadCache` | pcsx2/Cache.cpp:191-249 | Reads what flat memory has at the host address. |
| `DataCache.Cache.WriteCache` | pcsx2/Cache.cpp:103-189 | Writes flat memory at the host address and nowhere else. |
| `DataCache.Cache.WriteBackInvalidate` | pcsx2/Cache.cpp:303-356 | DHWBIN keeps flat memory; the line is no longer held and memory has its bytes. |
| `DataCache.Cache.Invalidate` | pcsx2/Cache.cpp:265-302 | DHIN discards only its own 64-byte line: flat memory is main memory there and the same everywhere else. |
| `DataCache.Cache.Run` | pcsx2/Cache.cpp:33-356 | Any sequence of aligned reads, writes and DHWBIN gives what the same sequence gives on flat memory, whatever pages alias. |
| `TimerSpec.UpdateEarly` | pcsx2/Counters.cpp:630-662 | Before the next event is due an update only moves cycles into the count. |
| `TimerSpec.UpdateDue` | pcsx2/Counters.cpp:592-624 | On the cycle its event is due a timer goes exactly to the state after that event, with no cycles left over. |
| `TimerSpec.TickEarly` | pcsx2/Counters.cpp:630-662 | A cycle before the event is due passes in the hardware without one. |
| `TimerSpec.TickDue` | pcsx2/Counters.cpp:592-624 | On the cycle the event is due, the update and the hardware agree on the event, the flags, the count and the target's state. |
| `TimerSpec.UpdateRefines` | pcsx2/Counters.cpp:630-662 | An update on time does exactly what the hardware did in the cycles since the last one, event cycles included. |
| `TimerSpec.LazyRefines` | pcsx2/Counters.cpp:592-662 | Over any run of updates, however many come early, as long as none comes late: count, target state, flags and the cycle of every interrupt are those of a timer stepped each cycle. |
| `TimerSpec.ReadsAgree` | pcsx2/Counters.cpp:894-907 | A count or flag that is read before the next event is due, however long after the last update, does not depend on which updates ran nor when; on the cycle it is due it may, see TimerSpec.ReadIsHardware. |
| `TimerSpec.ReadIsHardware` | pcsx2/Counters.cpp:894-907 | A read some cycles after an update is the hardware's count exactly if the next event is not due yet, or is a target that does not reset the count; otherwise the hardware is at zero and the read gives the target, or 0x10000. |
| `TimerSpec.ReadBehindUpdates` | pcsx2/Counters.cpp:894-907 | The same after any run of updates on time. |
| `TimerSpec.ReadTooEarly` | pcsx2/Counters.cpp:894-907 | A timer for which the read on the due cycle, before the update, is not the hardware's count. |
| `TimerSpec.ZeroTargetFiresAgain` | pcsx2/Counters.cpp:592-609 | With a target of zero every update raises the interrupt, however little time passed, and the next one does again exactly if the count is reset by it: the case the refinement leaves out. |
| `EeTimers.Earliest` | pcsx2/Counters.cpp:73-137 | The earliest of a limit and what is due for the running timers of a range: a lower bound of all, and one of them. |
| `EeTimers.UpdateIsHardware` | pcsx2/Counters.cpp:630-662 | With wrapping cycle counts: an update of a running timer n cycles on, n not beyond what is due, is n cycles of the hardware. |
| `EeTimers.Timers.constructor` | pcsx2/Counters.cpp:139-166 | The timers start valid, all stopped, with their interrupt lines. |
| `EeTimers.Timers.cpuSetNextEvent` | pcsx2/R5900.cpp:220-230 | The next test is then no later than asked, and as early as it was. |
| `EeTimers.Timers.rcntSetOne` | pcsx2/Counters.cpp:73-122 | The deadline becomes the smaller of itself and the timer's next event, the next event test no later; but for an overdue timer it is set to 4, whatever it was. |
| `EeTimers.Timers.cpuRcntSet` | pcsx2/Counters.cpp:125-137 | The deadline is exactly the earliest of the vsync edge and every running timer's overflow and armed target, at least 0. With an overdue timer it is exactly the earliest of 4 cycles and the timers behind the last overdue one. |
| `EeTimers.DeadlineIs` | pcsx2/Counters.cpp:73-137 | That is the earliest event exactly if no timer is overdue, and at most 4 if one is. |
| `EeTimers.DeadlineLate` | pcsx2/Counters.cpp:73-137 | The deadline is late for something not overdue itself exactly if a timer is overdue and the vsync edge or a timer in front of the last overdue one is due before 4 cycles and before the timers behind it. |
| `EeTimers.LateDeadline` | pcsx2/Counters.cpp:73-137 | With any timing of at least 600 cycles up to the vsync, a run from the start to such a state: a clock made faster within a step leaves a timer overdue, and the timer in front of it is due in 3 cycles with the next update in 4. |
| `EeTimers.LateDeadlineNtsc` | pcsx2/Counters.cpp:190-247 | Such a run with the timing that vSyncInfoCalc gives for NTSC. |
| `EeTimers.Timers.cpuTestTarget` | pcsx2/Counters.cpp:592-609 | Count, target, flag and interrupts as in the specification's target test. |
| `EeTimers.Timers.cpuTestOverflow` | pcsx2/Counters.cpp:611-624 | Count, target, flag and interrupts as in the specification's overflow test. |
| `EeTimers.Timers.CountElapsed` | pcsx2/Counters.cpp:647-652 | The elapsed whole steps go into the count, the rest stays elapsed. |
| `EeTimers.Timers.rcntUpdate` | pcsx2/Counters.cpp:630-662 | In any state, also with a vsync edge that is up to 3 cycles late, each timer is updated as specified, the interrupts are raised in order, and the deadline is set as specified. Each timer that was sound still is, with its next event ahead; if none is overdue, the deadline is in time for all that is ahead; if all were sound, it is exactly the earliest event and lies ahead. |
| `EeTimers.Timers.cpuEventTest` | pcsx2/R5900.cpp:359-449 | Updates exactly if the deadline has come; the next event test then comes no later than the deadline. Each timer that was sound and that the deadline was in time for, or was updated, is sound with nothing due; if all were, the test comes no earlier than need be. |
| `EeTimers.Timers.RunFor` | pcsx2/R5900.cpp:359-449 | If the EE runs no further than its next event test, no event is missed that the deadline is in time for, whatever state the other timers and the vsync edge are in: each such timer stays sound and in time, and the vsync edge is not passed if it was in time. |
| `EeTimers.Timers.rcntRcount` | pcsx2/Counters.cpp:894-907 | For a sound timer that runs, the value read is the hardware's count, stepped each cycle since the emulator's was right, exactly if nothing is due now or the event due does not reset the count; otherwise the hardware is at zero and the value is the target, or 0x10000. |
| `EeTimers.Timers.rcntWcount` | pcsx2/Counters.cpp:833-857 | The deadline comes forward exactly to the timer's next event, and stays in time for all that it was in time for, whatever state the timers are in. The timer is sound afterwards exactly if it does not run, or the value is not its target and the target is not zero. |
| `EeTimers.Timers.rcntWtarget` | pcsx2/Counters.cpp:859-886 | The deadline comes forward exactly to the timer's next event (or is 4, if the count is past the overflow), and stays in time for all that it was in time for, whatever state the timers are in. The timer is sound afterwards exactly if it does not run, or the value is not zero and no overflow is pending. |
| `EeTimers.Timers.rcntWmode` | pcsx2/Counters.cpp:799-831 | The deadline comes forward exactly to the timer's next event (or is 4, if the timer is overdue), and stays in time for all that it was in time for, whatever state the timers are in. The timer is sound afterwards exactly if the mode fits: the timer will not run, or its target is not zero, nothing is due for it, and the cycles left from its last step fit into what is left at the new rate. |
| `EeTimers.CountWrittenSound` | pcsx2/Counters.cpp:833-857 | A write of the count sets the hardware's count, keeps the phase within a step, and arms the target unless it is behind. |
| `EeTimers.TargetWrittenSound` | pcsx2/Counters.cpp:859-886 | A write of the target keeps the hardware's count and phase, and arms the target exactly if it is ahead. |
| `EeTimers.ModeWrittenSound` | pcsx2/Counters.cpp:799-831 | A write of the mode that keeps the clock loses no cycle: count, phase and target state are the same, and the two flags are what they were less those written as one. |
| `EeTimers.ModeReadsBack` | pcsx2/Counters.cpp:815-819 | What the mode register reads as after a write: its low ten bits are the value's, but for the count enable of a timer that waits for its gate; the flags in bits 10 and 11 are the old ones less those written as one. |
| `EeTimers.ModeFitsExactly` | pcsx2/Counters.cpp:799-831 | A timer that runs, starts or stops is sound after a write of the mode exactly if the mode fits it, which can be told before the write. |
| `EeTimers.SlowerClockSound` | pcsx2/Counters.cpp:799-831 | A running timer with nothing due that keeps running stays sound exactly if the cycles left from its last step are no more than its remaining steps at the new rate; with the same or a slower clock they never are. |
| `EeTimers.OverdueAfterUpdate` | pcsx2/Counters.cpp:592-624 | An update leaves a timer overdue exactly if it ran past a resetting target by more than the whole target, or past the overflow by more than the target. |
| `EeTimers.FasterClockRunsOver` | pcsx2/Counters.cpp:799-831 | A timer that a faster clock puts so far past its target that it stays overdue behind the update. |
| `EeTimers.UpdatedSound` | pcsx2/Counters.cpp:630-662 | After an update on time every running timer's next event lies ahead. |
| `EeTimers.VsyncEdge` | pcsx2/Counters.cpp:554-590 | After an update that is at most 3 cycles late the next vsync edge lies ahead. |
| `SyncCounters.ErrorBound` | pcsx2/Counters.cpp:190-247 | In analog modes the correction is at most half the number of scanlines plus three cycles, either way. |
| `SyncCounters.DigitalInfo` | pcsx2/Counters.cpp:190-247 | In other modes than analog ones a scanline lasts half as long, up to rounding, the vsync period is the same and there is no correction. |
| `SyncCounters.EqualParts` | pcsx2/Counters.cpp:190-247 | The two parts of a vsync period differ by at most a cycle, and so do those of a scanline, in all modes. |
| `SyncCounters.Counters.rcntUpdate_hScanline` | pcsx2/Counters.cpp:519-552 | The next scanline part begins exactly if the current one is over, at a cycle that does not depend on when this is noticed. |
| `SyncCounters.Counters.rcntUpdate_vSync` | pcsx2/Counters.cpp:554-590 | The same for the vsync parts; at the start of a vsync the scanlines are moved by the correction. |
| `SyncCounters.StartCycles` | pcsx2/Counters.cpp:519-590 | Both counters' start cycles over any mixture of calls, from the number of parts they have passed. |
| `SyncCounters.DriftPerFrame` | pcsx2/Counters.cpp:190-247 | Over n whole frames the two counters drift by exactly n cycles if a frame's scanlines last an odd number of cycles, and by none if not. |
| `DmaChain.WalkPrefix` | pcsx2/Hw.cpp:225-341 | A longer walk delivers the shorter one's words first, and a walk that is over stays as it is. |
| `DmaChain.StackKept` | pcsx2/Hw.cpp:260-330 | The stack keeps its first addresses as long as it does not get shorter. |
| `DmaChain.TagTaken` | pcsx2/Hw.cpp:225-302 | What a tag laid out in memory does, by the number of its kind: which data is delivered, where the next tag is, what becomes of the stack, and whether the transfer ends. |
| `DmaChain.CallReturns` | pcsx2/Hw.cpp:260-330 | A CALL and the RET that belongs to it resume at the tag behind the CALL's data, with the stack restored. |
| `DmaChain.CallToReturn` | pcsx2/Hw.cpp:260-330 | A CALL that leads straight to a RET returns, from any memory and stack with room. |
| `DmaChain.Channel.constructor` | pcsx2/Gif.cpp:443-469 | A transfer starts with what is left of the last one, dropped if it begins in unmapped memory, and is over with that if its tag says so. |
| `DmaChain.Channel.hwDmacSrcChainWithStack` | pcsx2/Hw.cpp:225-341 | The registers hold the reference's next tag and stack and the data's address; a third CALL and a RET without address end the transfer. |
| `DmaChain.Channel.ReadTag` | pcsx2/Gif.cpp:327-338 | Reading a tag is one step of the walk; an unmapped tag leaves everything as it was. |
| `DmaChain.Channel.incGifChAddr` | pcsx2/Gif.cpp:143-150 | The address and the count move by what was taken; behind a CNT tag tadr follows. |
| `DmaChain.Channel.GIFchain` | pcsx2/Gif.cpp:271-315 | The words the GIF accepts are delivered, and the walk's place is kept; unmapped data is dropped. |
| `DmaChain.Channel.GIFdma` | pcsx2/Gif.cpp:366-441 | A round reads a tag exactly if there is no data left and the transfer is not over, and moves what the GIF accepts; it finishes only when the walk is over and all is delivered. |
| `DmaChain.SplitsAgree` | pcsx2/Gif.cpp:366-441 | However the GIF splits the data, two transfers started alike have delivered the same words after as many words, and at the end, with the same tadr, as long as the data of each tag so far lay in mapped memory, or began in unmapped memory. |
| `DmaChain.SplitsAgreeExactly` | pcsx2/Gif.cpp:271-315 | Exactly such data is delivered alike by all splits: any two ways to split n words at an address that use them up deliver equally many if and only if all n are mapped or the first is not. |
| `DmaChain.SplitMatters` | pcsx2/Gif.cpp:293-307 | For data of which the first word is mapped and the k-th is not, a transfer taken whole and one split there deliver different numbers of words. |
| `GifFifo.Fifo.constructor` | pcsx2/Gif.cpp:60-77 | The FIFO starts empty. |
| `GifFifo.Fifo.write` | pcsx2/Gif.cpp:79-101 | Takes exactly what there is room for and appends it; what was written is always what was delivered, followed by the contents. |
| `GifFifo.Fifo.read` | pcsx2/Gif.cpp:103-141 | Offers all contents in order; what the GIF does not accept stays, in order, to be offered again. |
| `GifFifo.Fifo.GiveBack` | pcsx2/Gif.cpp:132-135 | Moving the read position back leaves exactly the words that were not accepted. |
| `GifFifo.Fifo.CalculateFIFOCSR` | pcsx2/Gif.cpp:48-58 | The CSR shows empty exactly for no word, and full for fifteen or sixteen. |
| `Mfifo.MaskIsRemainder` | pcsx2/Gif.cpp:520-521 | Masking with the ones of a power of two is the remainder. |
| `Mfifo.MaskPlace` | pcsx2/Gif.cpp:520-521 | The mask takes an address that ran over the ring's end back to the front, for a ring at a multiple of its size. |
| `Mfifo.Ring.hwMFIFOWrite` | pcsx2/Hw.cpp:148-175 | Writes the words from the address on, over the end if need be, and nothing else of the ring. |
| `Mfifo.Ring.SprWrite` | pcsx2/SPR.cpp:105-121 | The words written come behind all unread ones exactly if they do not fill the ring; if they do, the reader finds a whole ring of words less. |
| `Mfifo.Ring.QWCinGIFMFIFO` | pcsx2/Gif.cpp:471-492 | The number of unread words, in 16 bits, from the two addresses alone; empty is noted exactly for none. |
| `Mfifo.Ring.mfifoGIFrbTransfer` | pcsx2/Gif.cpp:494-547 | Delivers the next unread words in the order they were written, over the end in two pieces, as many as are asked for, there and accepted; the address stays in the ring. |
| `Mfifo.WillingDrain` | pcsx2/Gif.cpp:471-502 | A GIF that takes everything drains all that is asked for and there exactly if that is less than 0x10000 words, or the count in 16 bits is no less than what is asked for; exactly a multiple of 0x10000 looks like nothing. |
| `IopEvents.ComesForward` | pcsx2/R3000A.cpp:112-119 | Seen from now, the branch comes forward to the event if the distance does not wrap. |
| `IopEvents.FarBranchStaysLate` | pcsx2/R3000A.cpp:112-119 | Exactly when a branch is in time for an event after the call: if it was anyway, or if it was less than 0x80000000 cycles from the event's start. |
| `IopEvents.FarRun` | pcsx2/R3000A.cpp:112-227 | A run from a reset to a branch that is late: an event is raised a cycle before an update of the counters that finds nothing to wait for, and the next test leaves the branch 0x7fffffff cycles ahead of an event due in 999. |
| `IopEvents.OnlyForward` | pcsx2/R3000A.cpp:112-119 | However far the event's start is, before or after now, the branch only comes forward, and never to before now. |
| `IopEvents.Scheduler.PSX_INT` | pcsx2/R3000A.cpp:134-155 | The event is pending and in time, also if the IOP has already passed the branch, and no other event becomes late; the branch is then the sooner of itself and the event. |
| `IopEvents.Scheduler.IopTestEvent` | pcsx2/R3000A.cpp:157-168 | Runs the callback exactly if the event is pending and due, and then all that it raises is pending and in time; otherwise the branch is in time for the event if its start was not too far from the branch. No other event becomes late. |
| `IopEvents.Scheduler.psxTestInterrupts` | pcsx2/R3000A.cpp:170-194 | Afterwards every event is in time that was, or that was tested and not too far from the branch; only SIO is not tested, and does not run, while it is switched off. No pending event disappears without its callback. |
| `IopEvents.Scheduler.psxRcntUpdate` | pcsx2/IopCounters.cpp:430-543 | The branch is set anew to 32 cycles ahead and then only comes forward, as far as any counter asks; what was raised is in time, and no event is further from the branch than it was from that. |
| `IopEvents.Scheduler.iopEventTest` | pcsx2/R3000A.cpp:196-227 | Whatever the callbacks raise, afterwards the next branch is at or before the due time of every pending event, but for SIO while it is switched off and for an event that was pending and began 0x80000000 cycles or more before the branch first set. |
| `IopEvents.Scheduler.RunFor` | pcsx2/R3000A.cpp:121-132 | If the IOP runs no further than the next branch, an event in time stays in time and is not passed. |

## Left out

- GifUnit.Unit.TransferGSPacketData: requires what the source asserts, that the pending bytes and the new ones fit into the buffer; an overflow is not modelled.
- GifParser.GetGSPacketSize: VU memory, which wraps, is unrolled once; memory that ends within a packet is an error.
- GifPath.Path.MtgsReadWait: that waiting for the GS thread ends is taken for granted; the source's wait returns after one turn of the GS thread, which may not have run a command.
- MtgsSignals.NoLostWakeUp: starts with the GS thread asleep on its event and the busy flag clear; the window between starting the thread and its first sleep is not modelled.
- MtvuRing.FirstInFirstOut: needs that the committed read position is not 0 when the writer wraps, which the code does not ensure; MtvuRing.RunCanLose shows that it is needed at every wrap.
- TimerSpec.LazyRefines: needs a target that is not zero (see TimerSpec.ZeroTargetFiresAgain) and updates that are not late.
- DmaChain.SplitsAgree: not for data of a tag that begins in mapped memory and runs out of it, for which it does not hold (DmaChain.SplitsAgreeExactly, DmaChain.SplitMatters).
- DmaChain.Channel.GIFdma: the call of itself after a blank tag is a second round, so that an endless chain of blank tags is an endless run and not an endless call.
- Mfifo.Ring.mfifoGIFrbTransfer: the tag address of the channel, which is overwritten with the data address after each transfer from the ring.
- DataCache.Cache.Run: for pages that map whole pages of memory below host address 0x80000000, and aligned accesses.
- EeTimers.Timers.constructor: both parts of a vsync period take at least 4 cycles and less than 0x20000000.
- EeTimers.Timers.RunFor: for an event test that comes no later than the deadline; a write to an overdue timer sets the deadline to 4 without bringing the test forward.
- SyncCounters.ErrorBound: the bound of half the scanlines plus three is for at most 10000 scanlines; the exact bound, in twenty-thousandths of a cycle, is for any number.
- IopEvents.Scheduler.iopEventTest: the last update of the counters is taken to be less than 0x80000000 cycles ago, and events to be raised for 0 to 0x7fffffff cycles ahead.
- GIF resets, the debug handlers, the GS registers BITBLTBUF, TRXREG and TRXDIR in the A+D handler, interrupt masks, and the FINISH interrupt.
- The path 1 branches for VU1 threading inside Gif_Path and Gif_Unit: they appear in MtvuHandoff only.
- What a caller does with the bytes of path 3 that were rewound; transfers that resume drop that count.
- gifCheckPathStatus, and what VIF1 does when it waits for path 3.
- Weak memory order, thread suspension, mutex fairness, WaitGS and plugin calls: the rings and handshakes are step relations on values, one shared access at a time, under sequential consistency. MTGS.cpp and MTVU.cpp loop over shared globals; here the fields of a state take their place.
- The payload commands P1 to P3 of the MTGS ring, which are compiled only if packets are copied into it.
- Cache lines keep valid, dirty and replacement bits and the page as fields, and memory is in blocks of 64 bytes; the lock bit is not modelled.
- CACHE operations DHWOIN, DXWBIN, DXLTG, DXSTG, DXIN, DXLDT and DXSDT, the instruction cache, and DMA behind the cache.
- Gates of the EE timers other than that a gated timer stops, scanline-clocked timers' counting, COP0 performance counters, and the speed limiter.
- The IOP's own counters: what they contribute is any sequence of branches and events.
- DMA in normal and interleave mode, stall control, the tag transfer option, and data that runs past the end of a memory.
- The MFIFO's tag reading and data outside the ring, and the FIFO hack's timing.
- The EE's share in PSX_INT, which asks it for an earlier event test.
