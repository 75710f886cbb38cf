# EtherCAT master: a model and its proofs

A Dafny model of the SOEM EtherCAT master in this repository and of the bus layer above it, with proofs
of what the code promises: that slaves share no bit of the process image, that the work counter adds up
exactly, that a tree of slaves and its frame delays are recovered from a few registers, that frames
reach their waiters in any interleaving and over a broken ring, and that the mailbox protocols deliver
what they are given. `dafny verify dfyconfig.toml` checks all of it.

Where the code falls short of a promise, the model keeps the code as it is and a lemma says exactly
when the promise holds.

## Parts

- **Topology and clocks.** `Topology.dfy` is a bus as a tree of slaves with link delays and clock offsets,
  numbered in preorder; `BusExists` shows that every tree has such a numbering. `DistributedClocks.dfy` is
  the parent search and the delay measurement as methods over the slave list. Main results:
  `ScanFindsParent`, `Master.ConfigDc`, `Master.DiscoverAndMeasure`.
- **Process image.** `FmmuMapping.dfy` maps one slave, `IoMap.dfy` a group, plain or overlapped,
  `FmmuTable.dfy` counts the windows against the four entries of a slave, `Segments.dfy` is the cutting into
  datagram segments. `ProcessData.dfy` sends and receives a cycle, `WorkCounter.dfy` and `CycleProofs.dfy`
  say what a cycle is worth, `CycleImages.dfy` what it leaves in the image and in the slaves,
  `LossyCycle.dfy` what it leaves when frames are lost, `OverlapCycle.dfy` and `OverlapSplit.dfy` all this
  for an overlapped map, with LRW and with LRD and LWR. `Pipeline.dfy` joins the mapping with the cycle,
  `Pointers.dfy` says what each slave finds and gets through its pointers, `BusLayer.dfy` is the caller,
  `BusRun.dfy` runs all of it. Main results: `WindowsApart`, `OutputsBeforeInputs`, `WindowsFitTwoRuns`,
  `TableHoldsIff`, `CycleImage`, `LossyImage`, `SplitEqualsCombined`, `WorkCounterAccounting`,
  `TooLowIffLost`, `TableAddsUpIff`, `CycleServes`, `MapAndRun`, `OverlapRoundTrip`, `SplitRoundTripIff`,
  `OverlapSplitTotal`, `OverlapStaysInside`.
- **Frames.** `Transport.dfy` is the rx buffer state machine, `Interleaving.dfy` all runs of all waiters,
  `IndexLife.dfy` runs in which indices are also handed out, sent, freed and used again, `Redundancy.dfy` the
  index allocator and the two-port wait, `Ring.dfy` the slaves between the two ports with a cable broken
  anywhere, `RingNetwork.dfy` such a ring with the master that sends into it, `Datagram.dfy` the bytes of a
  frame of several datagrams, `MasterFrames.dfy` the frames the master builds of them. Main results:
  `EveryRunDelivers`, `EveryUseGetsItsReply`, `SingleBreakTransparent`, `SrConfirm`, `FrameParses`,
  `FprdMulti`.
- **Mailbox protocols.** `SdoServer.dfy` is a slave that follows section 5.6.2 of ETG.1000.6, `Sdo.dfy` and
  `SdoRead.dfy` are the transfers; `Foe.dfy` is section 5.8 and `Eoe.dfy` and `EoeReceive.dfy` are section
  5.7 of the same standard, and `EoeSound.dfy` says exactly which mail is reported as a frame. Main results:
  `WriteDelivers`, `ReadReturns`, `WriteThenRead`, `SendEndsIff`, `Reassembles`, `ReportedIff`,
  `ReceivedSound`, `SendThenReceive`; `WriteAndReadBack` and `SendAndReceive` are the methods of both sides
  run one after the other.
- **Small parts.** `SiiCache.dfy` and `Sii.dfy` (EEPROM cache, section walk, PDO sizes), `ReadState.dfy`
  (broadcast fast path), `ErrorList.dfy` (error ring). `Basics.dfy` and `Bytes.dfy` are shared.

## How the code is modelled

- Loops and objects that change state are methods and classes with loops over arrays; each is tied to a
  function or predicate on values, and the results are lemmas about those.
- Numbers are unbounded unless the width matters; where it does (mailbox sizes, header fields, end addresses,
  PDO sizes) the truncation is written out. Clock readings do not wrap.
- Sets of ports and words of the EEPROM bitmap are sets of bit numbers; the process image is a sequence of
  bits.
- Sockets are sequences of what coming polls yield; timers are numbers of polls; a mutex makes the code
  inside it one step. Peers of the mailbox protocols are functions from the messages so far to the next
  reply, arbitrary ones where a contract says what the code does, compliant ones where a lemma says what
  arrives.
- The two directions of slave mapping differ only in names and are one method with a direction.

## Model

| member | source | states |
|---|---|---|
| DistributedClocks.Master.DiscoverAndMeasure | soem_rsl/soem_rsl/soem_rsl/ethercatconfig.c:406-470 | from the DL status words of a real bus, which show for each port whether it has a signal and is closed, and from unsynchronised readings alone: the tree is rebuilt and all delays are exact |
| DistributedClocks.Master.ConfigDc | soem_rsl/soem_rsl/soem_rsl/ethercatdc.c:252-431 | for any tree of slaves with clocks entered at port 0, symmetric link delays and arbitrary clock offsets, every slave ends with the true travel time from slave 1 and no port left; for any list at all, the clocks are chained in order and the result tells whether there is one |
| Topology.ScanFindsParent | soem_rsl/soem_rsl/soem_rsl/ethercatconfig.c:441-470 | with slaves numbered in preorder and 1 to 4 links each, the backward scan stops at slave k exactly if k is the true parent |
| FmmuMapping.CreateMapping | soem_rsl/soem_rsl/soem_rsl/ethercatconfig.c:896-1034 | a slave gets consecutive windows of exactly its bits when below 8, else of its bytes when its sync managers cover them, starting where told, each with the physical start of its address run; a pointer that was not set leads to their first bit; the expected count grows exactly if a window holds a bit |
| FmmuMapping.WindowsFitTwoRuns | soem_rsl/soem_rsl/soem_rsl/ethercatconfig.c:930-988 | because the byte count is never reset, the windows stay inside their address runs if and only if the first run that is not empty and the one behind it hold all bytes of the slave |
| FmmuTable.TableHoldsIff | soem_rsl/soem_rsl/soem_rsl/ethercatconfig.c:896-1178 | the windows of a covered slave in a mapped group fit its table of four entries if and only if these can be shared out so that both directions have enough by that count |
| IoMap.WindowsApart | soem_rsl/soem_rsl/soem_rsl/ethercatconfig.c:1211-1256 | in one direction no two slaves share a bit, and later slaves lie behind earlier ones |
| IoMap.OutputsBeforeInputs | soem_rsl/soem_rsl/soem_rsl/ethercatconfig.c:1211-1325 | all outputs end at or before the byte at which the inputs begin |
| IoMap.OverlappedApart | soem_rsl/soem_rsl/soem_rsl/ethercatconfig.c:1392-1460 | in the overlapped map, windows of different slaves are disjoint in both directions |
| Pipeline.TableAddsUpIff | soem_rsl/soem_rsl/soem_rsl/ethercatconfig.c:1225-1236 | the table covers the mapped range if and only if first fit of what is accounted needs at most 64 segments, and for slaves of whole bytes these are their sizes |
| Pipeline.WorkCounterAccounting | soem_interface_rsl/src/soem_interface_rsl/EthercatBusBase.cpp:256 | over mapping, sending and receiving, with all frames back: the received total is at least 2 * outputsWKC + inputsWKC, equal if and only if no datagram splits a slave, and so always for slaves of whole bytes; if nothing is mapped nothing comes back |
| Pipeline.TooLowIffLost | soem_interface_rsl/src/soem_interface_rsl/EthercatBusBase.cpp:256-278 | the received total is below 2 * outputsWKC + inputsWKC if and only if what came back is worth less or nothing came back; if no slave is split, if and only if a frame that counts was lost or nothing came back |
| Pointers.CycleServes | soem_rsl/soem_rsl/soem_rsl/ethercatmain.c:1697-1986 | after a complete cycle, on both paths, every slave of the group that had no pointers before finds its input bits, in order, from the bit on where its input pointer and start bit lead, and its output bits get what stands from there on where its output pointer leads |
| Pointers.OverlapCycleServes | soem_rsl/soem_rsl/soem_rsl/ethercatconfig.c:1365-1493 | the same in an overlapped map after its pointers were shifted, with LRW |
| BusRun.MapAndRun | soem_interface_rsl/src/soem_interface_rsl/EthercatBusBase.cpp:242-299 | the same from the unmapped slave list on, for whatever comes back |
| CycleImages.CycleImage | soem_rsl/soem_rsl/soem_rsl/ethercatmain.c:1697-1986 | after a cycle whose frames all came back every mapped input bit is fresh and every output bit is as before, on both paths |
| LossyCycle.LossyImage | soem_rsl/soem_rsl/soem_rsl/ethercatmain.c:1697-1986 | after a cycle of which any frames came back, on both paths: the bits over which a reply was stored are those of a complete cycle, all others are as before |
| CycleImages.SplitEqualsCombined | soem_rsl/soem_rsl/soem_rsl/ethercatmain.c:1731-1986 | a cycle with LRW and one with LRD and LWR over the same image, all frames back: the received images are equal if and only if no unmapped bit of the input part was set, and every mapped output bit in the slaves is equal |
| OverlapCycle.OverlapTableAddsUp | soem_rsl/soem_rsl/soem_rsl/ethercatconfig.c:1424-1468 | the segment table of an overlapped map adds up to the larger of the reported lengths, which is what is sent, if and only if first fit needs at most 64 entries; else to less |
| OverlapCycle.OverlapAccounting | soem_rsl/soem_rsl/soem_rsl/ethercatmain.c:1829-1858 | an overlapped LRW cycle is worth exactly 2 * outputsWKC + inputsWKC |
| OverlapCycle.OverlapRoundTrip | soem_rsl/soem_rsl/soem_rsl/ethercatmain.c:1717-1958 | each mapped input bit arrives as far behind the outputs as it lies in the logical range, the outputs in the image stay, and the slaves get them |
| OverlapCycle.OverlapStaysInside | soem_rsl/soem_rsl/soem_rsl/ethercatmain.c:1717-1856 | the replies of an overlapped cycle are stored inside the reported map if and only if, with LRW, there are no outputs or no more outputs than inputs, and with LRD there are no inputs, no more outputs than inputs, or a segment boundary where the inputs end |
| OverlapSplit.SplitRoundTripIff | soem_rsl/soem_rsl/soem_rsl/ethercatmain.c:1731-1958 | the round trip of an overlapped map over LRD and LWR: outputs stay and reach the slaves, and inputs arrive whatever they are at if and only if there are no outputs or no slave has inputs |
| OverlapSplit.OverlapSplitTotal | soem_rsl/soem_rsl/soem_rsl/ethercatmain.c:1731-1986 | with all its frames back the total is 2 * outputsWKC and the answers to the misplaced reads: the expected count without outputs, at least that if every slave with inputs has some behind the start of the reads, and with a single read only then; with no more inputs than outputs it is too low for ever exactly if a slave has inputs |
| Interleaving.EveryRunDelivers | soem_rsl/soem_rsl/oshw/linux/nicdrv.c:373-453 | whatever waiters do in whatever order, and whatever arrives in whatever order: every awaited index keeps its reply until it is delivered, delivers it at most once, and delivers nothing else |
| IndexLife.EveryUseGetsItsReply | soem_rsl/soem_rsl/oshw/linux/nicdrv.c:218-453 | over every run in which any threads get, send, wait for and free indices while replies arrive: each use of an index delivers at most once, and only the reply to that use, and a reply that came is under way, held or delivered until the index is freed, if none is sent while an earlier reply to it is under way |
| Ring.SingleBreakTransparent | soem_rsl/soem_rsl/oshw/linux/nicdrv.c:299-541 | any single break of the ring, at either cable or between two slaves, is invisible: work counter and rx buffer are those of the frame passed through all slaves once in order |
| RingNetwork.SrConfirm | soem_rsl/soem_rsl/oshw/linux/nicdrv.c:573-598 | sending and waiting over a redundant port and a ring with at most one break, or over a port without redundancy and a line of slaves: confirmed in the first round, with work counter and contents of all slaves passed once in order |
| Datagram.FrameParses | soem_rsl/soem_rsl/soem_rsl/ethercatbase.c:68-146 | following the length fields gives back exactly the datagrams if and only if every one but the last was marked as followed; the length word leads to the last work counter |
| MasterFrames.FprdMulti | soem_rsl/soem_rsl/soem_rsl/ethercatmain.c:681-715 | with slaves that answer the status reads addressed to them, wherever these stand in a frame: building, sending and collecting together give the status of each slave in the list |
| Sdo.WriteDelivers | soem_rsl/soem_rsl/soem_rsl/ethercatcoe.c:330-530 | a compliant slave in which the object can be written ends with exactly the given bytes if and only if they are at most 65535 and, unless complete access is used, at least one; longer ones store nothing, and success is reported wrongly exactly if their truncated size fits the first request; an object that cannot be written stays, and no success is reported |
| SdoRead.ReadReturns | soem_rsl/soem_rsl/soem_rsl/ethercatcoe.c:177-287 | a read from a compliant slave succeeds, and returns exactly the stored bytes if and only if every upload segment but the last carries at least seven; else the padding of the short ones on top |
| SdoRead.WriteAndReadBack | soem_rsl/soem_rsl/soem_rsl/ethercatcoe.c:120-530 | one after the other: the bytes written come back, unless the object cannot be written, which is reported |
| SdoRead.ReadEndsIff | soem_rsl/soem_rsl/soem_rsl/ethercatcoe.c:177-287 | a read ends within some rounds if and only if it is not segmented or its segment loop ends |
| Foe.WriteDelivers | soem_rsl/soem_rsl/soem_rsl/ethercatfoe.c:239-305 | a slave with an equal mailbox gets the complete file if and only if it is not empty |
| Foe.ReadReturns | soem_rsl/soem_rsl/soem_rsl/ethercatfoe.c:110-182 | the file is returned if and only if reader and slave use the same packet size or the first packet holds all of it and is not taken for full; the read also stops at the last packet if and only if that is the first or the sizes are equal |
| Foe.WriteAndReadBack | soem_rsl/soem_rsl/soem_rsl/ethercatfoe.c:71-353 | one after the other: the file comes back |
| Eoe.SendEndsIff | soem_rsl/soem_rsl/soem_rsl/ethercateoe.c:339-392 | sending ends if and only if some fragment is not taken, or the frame fits one fragment, or it has less than 65536 bytes and the mailbox at least 42 |
| EoeReceive.Reassembles | soem_rsl/soem_rsl/soem_rsl/ethercateoe.c:547-627 | from any state left by lost or garbled fragments, the fragments of a frame, however cut into whole blocks, are put together if and only if it has at most 2016 bytes; then the state is clean |
| EoeSound.ReportedIff | soem_rsl/soem_rsl/soem_rsl/ethercateoe.c:547-627 | for every sequence of mailboxes: a frame is reported with one of them if and only if the mailboxes since some first fragment are one frame that ends there, each fragment with the next number, the number of the frame and the length of those before as its offset; the size is that of the data that found room, less a timestamp, and these stand in the buffer |
| EoeReceive.RecvReturns | soem_rsl/soem_rsl/soem_rsl/ethercateoe.c:428-510 | a frame of at most 2016 bytes is returned if and only if the buffer holds it rounded up to 32; else the first fragment is refused |
| EoeSound.ReceivedSound | soem_rsl/soem_rsl/soem_rsl/ethercateoe.c:428-510 | for whatever mail comes in: the blocking receiver returns a frame only if the mailboxes since some first fragment for its port are one frame that ends there, but for fragments numbered 0 instead of the next number; and it returns every such frame behind first fragments that do not fit |
| EoeReceive.SendAndReceive | soem_rsl/soem_rsl/soem_rsl/ethercateoe.c:316-512 | one after the other: the frame is in the buffer |
| SiiCache.EveryRunReads | soem_rsl/soem_rsl/soem_rsl/ethercatmain.c:332-395 | over every sequence of requests, for any slaves in any order, every answer is the EEPROM byte of that slave |
| Sii.SiiPdo | soem_rsl/soem_rsl/soem_rsl/ethercatmain.c:612-677 | cursor and word counter move in lock-step over all PDOs; sizes per PDO, per sync manager and in total are those of the active ones; of an empty section, those of what follows it |
| Sii.EmptySectionIff | soem_rsl/soem_rsl/soem_rsl/ethercatmain.c:634-668 | the size of an empty PDO section is reported as 0 if and only if the bytes behind it do not look like an active PDO with bits in it |
| ReadState.FastRefinesSlow | soem_rsl/soem_rsl/soem_rsl/ethercatmain.c:721-822 | with all slaves present and in a proper state the fast path gives the same states as the slow one, if and only if the collected bits are not those of BOOT or all slaves are in BOOT |
| ErrorList.EveryRunRefines | soem_rsl/soem_rsl/soem_rsl/ethercatmain.c:152-207 | under every run of push and pop the ring is that queue |
| Topology.BusFacts | soem_rsl/soem_rsl/soem_rsl/ethercatconfig.c:408-440 | every slave of a numbered bus obeys the local facts of its position: its open ports, its parent, the times at which a frame reaches and leaves it |
| Topology.BranchBalance | soem_rsl/soem_rsl/soem_rsl/ethercatconfig.c:446-462 | a complete branch lowers the counter of the backward scan by exactly one, and every end of it lowers the counter |
| DistributedClocks.PrevDcIsLast | soem_rsl/soem_rsl/soem_rsl/ethercatdc.c:291-294 | the predecessor in the clock chain is the last slave with a clock before it, and there is none exactly if no earlier slave has one |
| DistributedClocks.DelayIsTravelTime | soem_rsl/soem_rsl/soem_rsl/ethercatdc.c:374-404 | delay arithmetic on readings that are true up to an offset of each clock gives the travel time of the frame: half the round trip of the branch without what lies behind the slave, plus the earlier branches of the parent, plus the delay of the parent |
| DistributedClocks.ConsumesOwnPort | soem_rsl/soem_rsl/soem_rsl/ethercatdc.c:216-244 | the port search on the parent yields the port the slave really hangs on and leaves exactly the ports of the later branches |
| DistributedClocks.VisitKeepsDelays | soem_rsl/soem_rsl/soem_rsl/ethercatdc.c:274-409 | one slave visited extends the finished part of the list by one, with all earlier delays intact |
| DistributedClocks.ParentsAreTrue | soem_rsl/soem_rsl/soem_rsl/ethercatconfig.c:441-470 | what the scan finds for all slaves of a bus is its tree |
| DistributedClocks.Master.FindParent | soem_rsl/soem_rsl/soem_rsl/ethercatconfig.c:441-470 | for any list of link counts the scan ends with a parent below the slave; what it finds is characterised by the scan counter |
| DistributedClocks.Master.ConfigTopology | soem_rsl/soem_rsl/soem_rsl/ethercatconfig.c:406-470 | every slave gets exactly the ports that its status word shows to have a signal and not to be closed, and their number, and parents are what the scan finds |
| DistributedClocks.ShownPorts | soem_rsl/soem_rsl/soem_rsl/ethercatconfig.c:411-430 | from a status word built of the states of four ports, with any other bits, exactly the ports are read that have a signal and are not closed |
| DistributedClocks.Master.EntryPort | soem_rsl/soem_rsl/soem_rsl/ethercatdc.c:311-352 | of the open ports with the smallest reading, the first in the order 0, 3, 1, 2 |
| DistributedClocks.Master.DcParent | soem_rsl/soem_rsl/soem_rsl/ethercatdc.c:356-363 | the walk ends, at the nearest ancestor with a clock or at the master; the child is the one below it on the way |
| DistributedClocks.Master.VisitDcSlave | soem_rsl/soem_rsl/soem_rsl/ethercatdc.c:295-409 | if everything before this slave is exact and its readings are true, its delay is exact, its parent loses the port it hangs on and it keeps the ports of its children |
| FmmuMapping.TouchesUnion | soem_rsl/soem_rsl/soem_rsl/ethercatconfig.c:960-1008 | consecutive windows touch a range of bits exactly if their union does |
| FmmuMapping.ScanRun | soem_rsl/soem_rsl/soem_rsl/ethercatconfig.c:925-956 | one window collects the sync managers whose addresses connect, as long as bits are missing |
| FmmuMapping.PlaceWindow | soem_rsl/soem_rsl/soem_rsl/ethercatconfig.c:960-1008 | a window begins at the allocation point (at the next byte for slaves of whole bytes), holds exactly its bits, and the point moves right behind it with the bit position in 0..7 |
| FmmuTable.WindowsExact | soem_rsl/soem_rsl/soem_rsl/ethercatconfig.c:922-956 | a covered slave of whole bytes needs exactly as many windows as hold its bytes, each of them as long as all address runs up to it |
| FmmuTable.OverlapTableHoldsIff | soem_rsl/soem_rsl/soem_rsl/ethercatconfig.c:1392-1426 | the same in an overlapped map |
| FmmuTable.FiveWindows | soem_rsl/soem_rsl/soem_rsl/ethercatconfig.c:922-956 | runs of 1, 1, 1, 1 and 100 bytes cover 104 bytes and need five windows |
| FmmuTable.WindowsAtMostSms | soem_rsl/soem_rsl/soem_rsl/ethercatconfig.c:922-956 | never more windows than sync managers of the direction |
| FmmuTable.SecondWindowTooLong | soem_rsl/soem_rsl/soem_rsl/ethercatconfig.c:930-988 | three separate runs of two bytes for six bytes get windows of two and four: the second reaches behind its run |
| Segments.SegmentsAddUp | soem_rsl/soem_rsl/soem_rsl/ethercatconfig.c:1219-1334 | the segments add up to all bytes accounted if and only if nothing is dropped, that is if first fit needs at most 64 entries; else to less |
| Segments.PieceUnbroken | soem_rsl/soem_rsl/soem_rsl/ethercatconfig.c:1224-1236 | what is accounted in one piece lies inside one segment |
| Segments.SegmentsBounded | soem_rsl/soem_rsl/soem_rsl/ethercatconfig.c:1224-1236 | no segment is longer than 1466 bytes, or than the largest piece if one is longer |
| Segments.SharedSegment | soem_rsl/soem_rsl/soem_rsl/ethercatconfig.c:1258-1262 | the segment in which the outputs end is shared: its first Ioffset bytes are outputs, the others inputs, and the segments from Isegment on without them add up to the inputs |
| IoMap.HalvesWithin | soem_rsl/soem_rsl/soem_rsl/ethercatconfig.c:1395-1426 | outputs and inputs of a slave start at the same byte and end before the next slave |
| IoMap.Group.MapSlaves | soem_rsl/soem_rsl/soem_rsl/ethercatconfig.c:1211-1239 | the slave loop of one direction: every slave of the group is laid out, others are left alone |
| IoMap.Group.MapDirection | soem_rsl/soem_rsl/soem_rsl/ethercatconfig.c:1211-1257 | one direction is as long as what was accounted for it |
| IoMap.Group.MapGroup | soem_rsl/soem_rsl/soem_rsl/ethercatconfig.c:1187-1360 | the whole mapping: outputs, then inputs, table of segments, expected counts; what its plan means for the pointers is said by PointersRightIff, PointersApart and CycleServes |
| IoMap.Group.OverlapSlaves | soem_rsl/soem_rsl/soem_rsl/ethercatconfig.c:1392-1463 | the slave loop of the overlapped map |
| IoMap.Group.OverlapMapGroup | soem_rsl/soem_rsl/soem_rsl/ethercatconfig.c:1365-1493 | the whole overlapped mapping, with the input pointers moved behind the outputs; what it means for the pointers is said by OverlapPointersApart and OverlapCycleServes |
| IoMap.BlockingIff | soem_rsl/soem_rsl/soem_rsl/ethercatconfig.c:1305-1312 | process data go without LRW if and only if some slave of the group cannot do it; group 0 is all slaves |
| WorkCounter.CountsAreExact | soem_rsl/soem_rsl/soem_rsl/ethercatmain.c:1929-1976 | over datagrams that tile a range, slaves are hit at least as often as expected, and exactly as often if and only if no boundary splits one |
| ProcessData.Exchange.SendSegments | soem_rsl/soem_rsl/soem_rsl/ethercatmain.c:1742-1776 | the segment loop sends exactly the chain of datagrams over its segments, pushes one stack entry for each and puts the clock into the first frame only |
| ProcessData.Exchange.Send | soem_rsl/soem_rsl/soem_rsl/ethercatmain.c:1697-1866 | what is sent and what is on the stack, for LRW and for LRD and LWR, with and without overlap and clock |
| ProcessData.Exchange.ReceiveReplies | soem_rsl/soem_rsl/soem_rsl/ethercatmain.c:1911-1986 | image, clock and work counter after the replies; no valid reply at all gives no frame; the stack is empty again |
| ProcessData.CycleFromImage | soem_rsl/soem_rsl/soem_rsl/ethercatmain.c:1697-1866 | every datagram of a cycle, on every path, is sent from inside a memory that holds the map |
| CycleProofs.LossLowersTotal | soem_rsl/soem_rsl/soem_rsl/ethercatmain.c:1929-1976 | a reply that counts and is lost makes the total lower |
| CycleProofs.ReceivedTotal | soem_rsl/soem_rsl/soem_rsl/ethercatmain.c:1929-1976 | the received total is what the datagrams whose frames came back are worth, outputs counting twice, with or without the clock in the first frame |
| CycleProofs.AllReceived | soem_rsl/soem_rsl/soem_rsl/ethercatmain.c:1929-1976 | with every frame back the total is what all datagrams are worth |
| CycleProofs.CycleClock | soem_rsl/soem_rsl/soem_rsl/ethercatmain.c:1940-1976 | after a cycle of which any frames came back the master has the time of the slaves if there are clocks and the first frame came back, else the time it had; on every path the clock rides with the first frame only |
| CycleProofs.CycleWorth | soem_rsl/soem_rsl/soem_rsl/ethercatmain.c:1731-1863 | one cycle is worth at least 2 * outputs + inputs, with equality if and only if no datagram splits a slave |
| CycleProofs.SegmentsSplitNone | soem_rsl/soem_rsl/soem_rsl/ethercatmain.c:1731-1863 | segments that split no slave give datagrams that split none |
| CycleProofs.RepliesAnswer | soem_rsl/soem_rsl/soem_rsl/ethercatmain.c:1929-1936 | with up to 16 frames under way the replies are found under their own indices |
| CycleImages.OneInputDiffers | soem_rsl/soem_rsl/soem_rsl/ethercatmain.c:1731-1986 | one byte of inputs that nobody maps, with its first bit set: the cycles with LRW and with LRD leave different images |
| CycleImages.ChainImage | soem_rsl/soem_rsl/soem_rsl/ethercatmain.c:1939-1958 | the replies to a chain of datagrams leave what one reply to an uncut datagram would |
| CycleImages.OutputsDelivered | soem_rsl/soem_rsl/soem_rsl/ethercatmain.c:1777-1862 | a slave sees exactly its output bits, on both paths, in plain and overlapped maps |
| OverlapCycle.OverlapNeverSplits | soem_rsl/soem_rsl/soem_rsl/ethercatconfig.c:1424-1440 | in an overlapped map no slave lies across a segment boundary, whatever it maps |
| OverlapCycle.OverlapTotal | soem_rsl/soem_rsl/soem_rsl/ethercatmain.c:1911-1986 | with all its frames back that is the total received |
| OverlapCycle.OverlapOverrun | soem_rsl/soem_rsl/soem_rsl/ethercatmain.c:1717-1856 | two bytes of outputs and one of inputs: the reply is stored behind a map of three bytes, with LRW and with LRD |
| OverlapCycle.OverlapImage | soem_rsl/soem_rsl/soem_rsl/ethercatmain.c:1829-1958 | after an overlapped LRW cycle the bytes behind the outputs hold the whole logical range, inputs where some are mapped and the sent outputs elsewhere |
| OverlapCycle.OverlapSplitImage | soem_rsl/soem_rsl/soem_rsl/ethercatmain.c:1737-1776 | an overlapped cycle with LRD reads from behind the outputs in the logical range, where an overlapped map has other inputs or none |
| OverlapSplit.OneSlaveMisread | soem_rsl/soem_rsl/soem_rsl/ethercatmain.c:1737-1776 | a slave with a byte of outputs and a byte of inputs, which are set: after a complete cycle they are not where its pointer points |
| Pipeline.ExpectedIsAdding | soem_rsl/soem_rsl/soem_rsl/ethercatconfig.c:1036-1037 | the counts from the mapping are the numbers of slaves that map a bit |
| Pipeline.SlaveAnswers | soem_rsl/soem_rsl/soem_rsl/ethercatconfig.c:922-1032 | a slave answers a range of bits with its outputs or inputs exactly if its span touches it |
| Pipeline.HitsAreAnswers | soem_rsl/soem_rsl/soem_rsl/ethercatconfig.c:1211-1334 | the hits of a datagram are the slaves whose windows it touches |
| Pipeline.MappedTiled | soem_rsl/soem_rsl/soem_rsl/ethercatconfig.c:1187-1334 | a mapped group whose segments fit the table is tiled by them, the shared segment included |
| Pipeline.BytesNeverSplit | soem_rsl/soem_rsl/soem_rsl/ethercatconfig.c:1224-1236 | a slave of whole bytes is never split between datagrams |
| Pipeline.MappedWorth | soem_rsl/soem_rsl/soem_rsl/ethercatmain.c:1731-1863 | a cycle over a mapped group is worth at least the expected count, and exactly that if and only if no datagram splits a slave |
| Pipeline.SizesAccounted | soem_rsl/soem_rsl/soem_rsl/ethercatconfig.c:1222-1236 | for covered slaves of whole bytes exactly their byte sizes are accounted |
| Pointers.PointersRightIff | soem_rsl/soem_rsl/soem_rsl/ethercatconfig.c:1010-1026 | pointer and start bit lead to the first bit of what the slave maps, counted from the start of the group, if and only if the group has a number or starts at 0 |
| Pointers.PointersApart | soem_rsl/soem_rsl/soem_rsl/ethercatconfig.c:1010-1164 | behind each pointer there is room for all bits of its slave before the data of any later slave or of the inputs begin |
| Pointers.OverlapPointersApart | soem_rsl/soem_rsl/soem_rsl/ethercatconfig.c:1392-1476 | the same for the shifted pointers of an overlapped map |
| Pointers.AreaHolds | soem_rsl/soem_rsl/soem_rsl/ethercatconfig.c:896-1034 | a slave maps exactly its bits when below 8, else its whole bytes, if its sync managers cover them |
| Pointers.NoGaps | soem_rsl/soem_rsl/soem_rsl/ethercatconfig.c:960-1008 | nothing is wasted: a slave of less than a byte begins right behind its predecessors, any other at the next whole byte, the first one at the start of its part |
| Pointers.OverlapTight | soem_rsl/soem_rsl/soem_rsl/ethercatconfig.c:1392-1440 | in an overlapped map a slave takes as many bytes as the larger of its directions, and the next one begins right behind it |
| Pointers.OthersLeftAlone | soem_rsl/soem_rsl/soem_rsl/ethercatconfig.c:1211-1325 | slaves of other groups keep their records |
| BusLayer.Bus.UpdateRead | soem_interface_rsl/src/soem_interface_rsl/EthercatBusBase.cpp:242-283 | a total below the expectation counts up and leaves the slaves alone, any other resets the count |
| BusRun.Configure | soem_rsl/soem_rsl/soem_rsl/ethercatconfig.c:1187-1360 | mapping a group sets up a view, an exchange and a bus layer whose expected count is that of the slaves |
| BusRun.RunCycle | soem_interface_rsl/src/soem_interface_rsl/EthercatBusBase.cpp:242-299 | one cycle: the slaves get to read if and only if something came back and no frame that counts is missing, when no slave is split, as for slaves of whole bytes; with all frames back their inputs are in the image where their pointers lead, and their outputs are what stands behind the others |
| Transport.RxStack.Poll | soem_rsl/soem_rsl/oshw/linux/nicdrv.c:407-447 | one packet is read and stored for whoever waits for it; foreign packets change no slot |
| Interleaving.WaitingSucceeds | soem_rsl/soem_rsl/oshw/linux/nicdrv.c:396-406 | a waiter that asks once more after the wire ran dry has its frame exactly once if it ever came |
| IndexLife.AskOnceMore | soem_rsl/soem_rsl/oshw/linux/nicdrv.c:396-406 | asking once more after the wire ran dry has the reply to the current use exactly if one came |
| IndexLife.LateReplyMisdelivered | soem_rsl/soem_rsl/oshw/linux/nicdrv.c:218-286 | an index sent while a packet for it is under way delivers that packet to the new use, to which no reply came |
| Redundancy.SomeFreeIsFound | soem_rsl/soem_rsl/oshw/linux/nicdrv.c:231-242 | no busy slot is handed out while one is free |
| Redundancy.HandedOutInTurn | soem_rsl/soem_rsl/oshw/linux/nicdrv.c:225-247 | indices are handed out in turn: the first free slot behind the last one |
| Redundancy.WaitFinds | soem_rsl/soem_rsl/oshw/linux/nicdrv.c:480-491 | waiting long enough finds the reply if it is on the wire, amid any other packets, and nothing else |
| Redundancy.Port.GetIndex | soem_rsl/soem_rsl/oshw/linux/nicdrv.c:218-252 | the slot handed out, allocated on both ports |
| Redundancy.Port.WaitBoth | soem_rsl/soem_rsl/oshw/linux/nicdrv.c:475-491 | both ports are read until both frames are in or the time is over |
| Redundancy.Port.WaitInFrameRed | soem_rsl/soem_rsl/oshw/linux/nicdrv.c:467-541 | with redundancy the decision tree over the routes of both frames; without, the reply to the index and its work counter if it comes in time, else no frame, and the secondary port is left alone |
| Redundancy.OnePortWait | soem_rsl/soem_rsl/oshw/linux/nicdrv.c:474-492 | waiting without redundancy finds the reply on the one port if it comes in time, amid any other packets, and nothing else |
| Ring.WaitReachesAll | soem_rsl/soem_rsl/oshw/linux/nicdrv.c:467-541 | whoever waits gets the frame after it passed, in order and once each, all slaves still connected to a port |
| Ring.FrameMissed | soem_rsl/soem_rsl/oshw/linux/nicdrv.c:492-541 | if nothing comes in, or only the frame and not the dummy, there is no frame, although in the second case the secondary port holds it |
| Ring.DummyTaken | soem_rsl/soem_rsl/oshw/linux/nicdrv.c:492-541 | if the frame is lost but the dummy comes through, the wait returns work counter and contents of the dummy |
| RingNetwork.CablesDeliver | soem_rsl/soem_rsl/oshw/linux/nicdrv.c:299-330 | a ring of slaves as a network, broken or not, behind whatever else is on the wires, is one of those the theorem is about |
| Sdo.SdoWrite | soem_rsl/soem_rsl/soem_rsl/ethercatcoe.c:330-530 | against any peer: what is sent is a beginning of the requests for this parameter, up to the first bad reply; a segment that is not answered does not stop it; success is reported only if a CoE response for this index and subindex came to the first request, and a CoE response to the last segment |
| Sdo.SegmentsServed | soem_rsl/soem_rsl/soem_rsl/ethercatcoe.c:446-503 | the segments of a download are stored completely if the rest fits 16 bits, else the last one is refused |
| Sdo.RefusedWrite | soem_rsl/soem_rsl/soem_rsl/ethercatcoe.c:374-395 | an absent or read-only object: the write stops at the abort of its first request, nothing is stored, and no success is reported |
| Sdo.StopsAtReply | soem_rsl/soem_rsl/soem_rsl/ethercatcoe.c:477-503 | a segment that is not answered does not stop a write, nor does one that is confirmed; any other reply does |
| Sdo.WriteToSlave | soem_rsl/soem_rsl/soem_rsl/ethercatcoe.c:330-530 | the write and a compliant slave together: what is stored and what is reported, for every size and object |
| SdoRead.SdoUpload | soem_rsl/soem_rsl/soem_rsl/ethercatcoe.c:120-311 | against any peer: the bytes read and the requests sent; success is reported only if a CoE response for this index came to the request of this object, and a last segment if there were several replies |
| SdoRead.ReadFromSlave | soem_rsl/soem_rsl/soem_rsl/ethercatcoe.c:120-311 | the read and a compliant slave together: success, and the stored bytes exactly under that condition |
| SdoRead.WriteThenRead | soem_rsl/soem_rsl/soem_rsl/ethercatcoe.c:120-530 | any 1 to 65535 bytes that a slave lets itself be written are read back, however it splits them into such segments |
| SdoRead.AbsentRead | soem_rsl/soem_rsl/soem_rsl/ethercatcoe.c:290-305 | a read of an object that the slave does not have ends at once, without success and without bytes |
| SdoRead.SmallBufferRead | soem_rsl/soem_rsl/soem_rsl/ethercatcoe.c:169-287 | a value larger than the buffer: the read ends at once, without success and without bytes |
| SdoRead.SegmentsEndIff | soem_rsl/soem_rsl/soem_rsl/ethercatcoe.c:222-275 | the segment loop ends within some rounds if and only if one of its requests gets a reply that is no segment or the last one |
| SdoRead.SilentSlaveHangsRead | soem_rsl/soem_rsl/soem_rsl/ethercatcoe.c:222-275 | if the slave falls silent in a segmented read, after any number of segments, no number of rounds ends it |
| Foe.PiecesRebuild | soem_rsl/soem_rsl/soem_rsl/ethercatfoe.c:247-296 | packets rebuild the file: all but the last are full, and the last is not |
| Foe.FoeWrite | soem_rsl/soem_rsl/soem_rsl/ethercatfoe.c:199-353 | against any peer: packets are sent in turn, each after the acknowledge of the one before, up to the first other reply |
| Foe.RequestFirst | soem_rsl/soem_rsl/soem_rsl/ethercatfoe.c:213-237 | a write begins with a request that has the password and the name, or as much of it as the mailbox holds |
| Foe.WriteToSlave | soem_rsl/soem_rsl/soem_rsl/ethercatfoe.c:199-353 | the write and such a slave together |
| Foe.SuccessMeans | soem_rsl/soem_rsl/soem_rsl/ethercatfoe.c:306-321 | success is reported if everything was acknowledged, or if the slave is busy |
| Foe.FoeRead | soem_rsl/soem_rsl/soem_rsl/ethercatfoe.c:71-186 | against any peer: packets in turn until one is not full, as far as the buffer goes |
| Foe.ReadSound | soem_rsl/soem_rsl/soem_rsl/ethercatfoe.c:110-182 | whatever the peer: a read succeeds only with packets numbered 1, 2, 3 and so on, each sent after the acknowledge of the one before, of which only the last is not full, and the buffer has them joined |
| Foe.ReadFromSlave | soem_rsl/soem_rsl/soem_rsl/ethercatfoe.c:71-186 | the read from such a slave: the file, after one acknowledge for each packet, of which there is one more than full ones |
| Foe.WriteThenRead | soem_rsl/soem_rsl/soem_rsl/ethercatfoe.c:71-353 | over equal mailboxes a file written is read back |
| Eoe.EoeSend | soem_rsl/soem_rsl/soem_rsl/ethercateoe.c:316-392 | the sending loop, watched for any number of rounds, for every frame and mailbox |
| Eoe.SendDone | soem_rsl/soem_rsl/soem_rsl/ethercateoe.c:339-392 | it is done within these rounds if and only if a fragment is not taken, or the frame can be sent and there is a round for each of its fragments; then it has sent these in order, up to the first that is not taken |
| Eoe.SmallMailboxHangsSend | soem_rsl/soem_rsl/soem_rsl/ethercateoe.c:339-392 | a smaller mailbox, a frame it does not hold, and a slave that takes everything: no number of rounds ends it, and no byte is ever sent |
| EoeReceive.SendThenReassemble | soem_rsl/soem_rsl/soem_rsl/ethercateoe.c:339-627 | whenever sending reports success for a frame of at most 2016 bytes, what was sent is put together again, from any state |
| EoeReceive.SendThenReceive | soem_rsl/soem_rsl/soem_rsl/ethercateoe.c:339-510 | and is received again |
| EoeReceive.Assembler.Read | soem_rsl/soem_rsl/soem_rsl/ethercateoe.c:528-634 | one fragment, from any state; which sequences of fragments are reported as a frame is said by ReportedIff |
| EoeReceive.EoeRecv | soem_rsl/soem_rsl/soem_rsl/ethercateoe.c:409-512 | the blocking receiver on whatever comes in |
| EoeSound.StrictNumbers | soem_rsl/soem_rsl/soem_rsl/ethercateoe.c:547-583 | then the fragments that found room are numbered 0, 1, 2 and so on, and are at most 64 |
| EoeSound.AllKeptIff | soem_rsl/soem_rsl/soem_rsl/ethercateoe.c:602-608 | no fragment of a frame is left out of the buffer if and only if all have room together |
| EoeSound.StrictIff | soem_rsl/soem_rsl/soem_rsl/ethercateoe.c:439-483 | what it returns is a frame with the numbers 0, 1, 2 and so on if and only if no other first fragment is in it |
| EoeSound.StrayFirstTaken | soem_rsl/soem_rsl/soem_rsl/ethercateoe.c:439-483 | a first fragment of another frame of the same number is taken as the next one if its size is the offset |
| EoeSound.OneStray | soem_rsl/soem_rsl/soem_rsl/ethercateoe.c:439-483 | 32 bytes of a frame of 64 and a short frame of the same number are returned as one frame |
| Datagram.SetupDatagram | soem_rsl/soem_rsl/soem_rsl/ethercatbase.c:68-91 | a frame of one datagram |
| Datagram.AddDatagram | soem_rsl/soem_rsl/soem_rsl/ethercatbase.c:106-146 | one more datagram behind the others, the first one marked, the length word updated; the returned offset is that of its data in the rx buffer |
| Datagram.AddedChain | soem_rsl/soem_rsl/soem_rsl/ethercatbase.c:118-134 | only the first datagram is marked by adding another, so those in the middle need the mark of their own |
| MasterFrames.BuildStatusReads | soem_rsl/soem_rsl/soem_rsl/ethercatmain.c:681-706 | one frame reads the state of up to 64 slaves, and each remembered position is that of the data of its slave |
| MasterFrames.StatusFrame | soem_rsl/soem_rsl/soem_rsl/ethercatmain.c:681-715 | that frame parses to one read for each slave |
| MasterFrames.ProcessFrameFits | soem_rsl/soem_rsl/soem_rsl/ethercattype.h:52-54 | a process-data frame, clock included, is at most 1514 bytes long |
| MasterFrames.BuildProcessFrame | soem_rsl/soem_rsl/soem_rsl/ethercatmain.c:1748-1770 | the frame of one process-data datagram, and the clock behind it at the offset that receiving uses |
| SiiCache.MarkExact | soem_rsl/soem_rsl/soem_rsl/ethercatmain.c:377-390 | exactly the bytes read become cached, across words of the bitmap |
| SiiCache.Context.GetByte | soem_rsl/soem_rsl/soem_rsl/ethercatmain.c:332-395 | one request: the byte, and the cache stays coherent |
| Sii.SiiFind | soem_rsl/soem_rsl/soem_rsl/ethercatmain.c:403-435 | on a well-formed section list the search ends, at the first section of the category, else with 0 |
| Sii.PdoStartIs | soem_rsl/soem_rsl/soem_rsl/ethercatmain.c:612-628 | the PDO section is that of the first category 50 for outputs and 51 for inputs, if there is one |
| Sii.SizesAgree | soem_rsl/soem_rsl/soem_rsl/ethercatmain.c:654-665 | the bits of all active PDOs are the sum over the sync managers |
| Sii.TotalIsSumOfSms | soem_rsl/soem_rsl/soem_rsl/ethercatmain.c:654-665 | the returned size is the sum of the sizes per sync manager, in 16 bits |
| Sii.EmptySectionMisread | soem_rsl/soem_rsl/soem_rsl/ethercatmain.c:634-668 | an EEPROM whose empty PDO section is reported with 16 bits |
| ReadState.Master.ReadAll | soem_rsl/soem_rsl/soem_rsl/ethercatmain.c:775-818 | every slave is read, in chunks of at most 64, and gets its own status; lowest state and all status codes are collected |
| ReadState.Master.ReadState | soem_rsl/soem_rsl/soem_rsl/ethercatmain.c:721-822 | the fast path if the broadcast shows one state, no error and all slaves; else the slow one |
| ReadState.BroadcastOfStates | soem_rsl/soem_rsl/soem_rsl/ethercatmain.c:727-757 | a state of one bit is collected by the broadcast only if all slaves are in it |
| ReadState.ErrorReadsAll | soem_rsl/soem_rsl/soem_rsl/ethercatmain.c:729-773 | whatever is in the registers: if a slave has the error flag, or fewer slaves answered than there are, every slave is read |
| ReadState.SameReadsOnce | soem_rsl/soem_rsl/soem_rsl/ethercatmain.c:748-772 | all present, in one of the five states and without error: the broadcast is enough |
| ReadState.LowestIsLeast | soem_rsl/soem_rsl/soem_rsl/ethercatmain.c:798-804 | the lowest state is that of some slave, and none is lower |
| ReadState.InitAndPreOpLookLikeBoot | soem_rsl/soem_rsl/soem_rsl/ethercatmain.c:748-770 | one slave in INIT and one in PRE_OP are both reported in BOOT |
| ErrorList.PushRefines | soem_rsl/soem_rsl/soem_rsl/ethercatmain.c:152-170 | pushing appends to a queue of 64 errors that drops the oldest when full |
| ErrorList.PopRefines | soem_rsl/soem_rsl/soem_rsl/ethercatmain.c:178-197 | popping takes the oldest, or tells that there is none and clears the flag |
| ErrorList.Context.PushError | soem_rsl/soem_rsl/soem_rsl/ethercatmain.c:152-170 | the ring after a push |
| ErrorList.Context.PopError | soem_rsl/soem_rsl/soem_rsl/ethercatmain.c:178-197 | the ring after a pop |
| ErrorList.Context.CheckForSdoErrors | soem_interface_rsl/src/soem_interface_rsl/EthercatBusBase.cpp:730-743 | ends with exactly the prefix popped up to and including the first error of the slave and index, or everything |

## Left out

- Sockets, ioctl, threads, pcap, timers and sleeps, and the other oshw and osal ports: operating system code.
- ecx_config_init apart from ports and parents, mailbox start-up, SII strings and FMMU data, writestate, recovery, ethercatsoe.c, ethercatprint.c, the EC_VER1 wrappers: register plumbing or easy list handling.
- candriver, the example slave, message logging, the bus manager and build files: input and output or easy list handling.
- DistributedClocks.Master.PassSlave: a branch without clocks consumes a port of its root by a heuristic; no exactness is claimed for buses that mix slaves with and without clocks.
- DistributedClocks.Master.ConfigDc: does not model the group list and the system offset register; the theorem needs slaves entered at port 0, which preorder numbering needs too, and no wrap of the 32-bit readings.
- FmmuMapping.FreeFmmu: the window table grows on demand; the C table has four entries and is overrun behind them. TableHoldsIff says exactly when it is not, and FiveWindows is a slave for which it is.
- FmmuMapping.CreateMapping: writes no registers, and says of the physical length of a window what the code computes; WindowsFitTwoRuns says when that is right and SecondWindowTooLong is a slave for which it is not.
- Segments.SegmentsAddUp: a segment that does not fit the table of 64 is dropped as the code does, so the sum is then too small.
- ProcessData.Exchange.Send: indices come in turn from a free port, and only the first 16 frames are on the stack, so lemmas about replies ask for at most 16 datagrams.
- ProcessData.Exchange.ReceiveReplies: a reply that would be stored behind the modelled memory is not followed; OverlapStaysInside says when replies stay inside the map.
- CycleImages.SplitEqualsCombined: in one cycle unmapped input bits are cleared by LRD and kept by LRW, so the two paths agree only if those bits were clear; OneInputDiffers is a map for which they do not.
- Pipeline.TooLowIffLost: when nothing is mapped no frame is sent, nothing valid comes back, and the work counter is reported too low for ever.
- IoMap.Group.OverlapMapGroup: a null input pointer stays null, where the C code adds the offset to it.
- OverlapCycle.OverlapSplitImage: an overlapped cycle with LRD reads from behind the outputs in the logical range, as the code does. SplitRoundTripIff says that inputs arrive whatever they are at if and only if there are no outputs or no slave has inputs, OneSlaveMisread is a slave whose inputs do not, and OverlapSplitTotal says when the work counter is too low.
- Pipeline.HitsAreAnswers: slaves start with an empty window table; windows preset before the mapping would answer too.
- Redundancy.Port.Resend: what the second try delivers on the primary port is not tracked, because the code does not look at it.
- Ring.SingleBreakTransparent: slaves process frames in one direction and keep length and header of a frame; the number of polls is larger than the number of packets on the wire.
- Sdo.SdoWrite: the session counter of the mailbox header is left out, and the write mailbox has 16 to 1486 bytes.
- SdoRead.SdoUpload: a reported size of 2 GiB or more, negative in C, is taken as too large. All bytes that the slave sends are collected, where the C code writes those beyond the buffer behind it; from a compliant slave these are none exactly if the buffer has room for the value and the padding that ReadReturns counts.
- Foe.FoeWrite: the name and password only travel in the request, the progress hook is left out, and packet numbers do not wrap.
- Eoe.EoeSend: the mailbox has 10 to 65535 bytes. SendEndsIff says for which frames and mailboxes the loop of the code ends; SendDone gives the fragments that were sent, with the counters wrapping as in the code.
- EoeSound.ReceivedSound: ecx_EOErecv does not insist on the next number, so a first fragment may be taken in the middle of a frame; StrictIff says exactly when what it returns is one frame in order, and OneStray is a case in which it is not.
- EoeSound.ReportedIff: a fragment whose data do not fit is left out and its frame may still be reported without it, as in the code; AllKeptIff says exactly when none is left out.
- Ring.DummyTaken: a lost frame of which the dummy comes through is reported with the work counter of the dummy, as in the code; no theorem about lost frames promises more than FrameMissed and DummyTaken say.
- EoeReceive.Assembler.Read: the size reported for a frame with a timestamp and less than four bytes wraps in 16 bits, as in the code.
- Datagram.AddDatagram: frames are without Ethernet header and the interrupt word of a datagram is whatever was in the buffer; data have less than 2048 bytes.
- IndexLife.EveryUseGetsItsReply: the code does not keep to one condition of it, that an index is not sent while a late reply to an earlier use of it is under way; LateReplyMisdelivered says what happens then.
- SiiCache.Context.GetByte: reads succeed and stay inside the buffer; a failed read would be cached as zeros by the code.
- Sii.SiiPdo: reads stay inside the buffer, also those behind an empty section; more than 511 PDOs are cut off as the code does.
- ReadState.Master.ReadAll: there is at least one slave, the frames come back, and a slave that does not answer has zeros.
