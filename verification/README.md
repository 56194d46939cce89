# A model of the Xinu TCP/IP stack

This project models the algorithms of a C port of Comer's Xinu TCP/IP stack for MVS and proves
what they are for. It is written in Dafny 4.11; `dafny verify dfyconfig.toml` checks all of it.

Each routine modelled that works on a ring, an array or a linked list is a method here, with the same
loops and branches, proved against a specification function. The properties are proved about those
functions: over one call, over several, and over every run.

| files | what they model |
|---|---|
| `Ring`, `TcpReceive`, `TcpStream`, `TcpReply`, `TcpSeq` | the receiving half of a TCB: acceptance, out-of-order copying into the ring, coalescing, reading, windows, replies, 32-bit comparison |
| `TcpSend`, `TcpSession`, `TcpProgress` | the sending half, and both halves with a network in between that loses, duplicates and reorders: what is safe, and when a connection can still deliver |
| `IpFragment`, `IpReassemble`, `IpRoundTrip`, `IpTable` | fragmentation and reassembly (section 3.2 of RFC 791) |
| `Gpq` | the stable priority queue under both reassemblers |
| `RouteHash`, `Routes`, `RouteRuns`, `RouteLookup`, `RouteBook`, `RouteTable` | the routing table: hash, chains, reference counts, lookup, ageing |
| `Heap`, `HeapRuns` | getmem, getstk and freemem |
| `TcpTimers` | the TCP timer list |
| `ProcQueue`, `SleepQueue`, `Sched`, `SchedRuns`, `SchedCalls`, `Kernel` | the shared q array, the sleep queue, the ready list and the dispatcher |
| `TcpRtt`, `TcpWindow`, `Checksum`, `Ctci` | round trip estimator and congestion window, checksums, CTCI framing |

## What the code does that its comments or the standards do not say

- `freemem` refuses every block below the first free one (`src/arch/s370/memory/freemem.c:17-19`), so a
  block taken from the front of the heap and given straight back stays allocated: `HeapRuns.RefusedIff`,
  `HeapRuns.FreeUndoesGetMem`, `HeapRuns.RefusedForGood`.
- The acknowledgement that reopens a window is sent once, and a probe of a closed window carries no data
  (`src/tcp/tcpsndlen.c:23`), which the receiver does not answer (`src/tcp/tcpdodat.c:16-22`,
  `src/tcp/tcpackit.c:20-22`). If that acknowledgement is lost with data waiting, the connection hangs:
  `TcpProgress.FinishIff` says exactly which states can still deliver, `TcpProgress.AnyCanStick` that
  every connection can get into one that cannot.
- `tcpsend` keeps the FIN bit in `tcb_code` once it was set (`src/tcp/tcpsend.c:39-42`). If more than one
  segment is unacknowledged then, the first retransmission carries the FIN with data that stops short of
  the end, and the receiver takes it for the end of the stream: `TcpSession.TornIff` says which segments,
  `TcpProgress.TornEndsEarly` what they do, and `TcpProgress.AnyCanEndEarly` that every connection whose
  buffers hold more than a segment can get there. All other results about connections are of runs without
  such a segment.
- `tcpsndlen` does not take what is in flight off the peer's window (`src/tcp/tcpsndlen.c:22-24`), so
  `tcpxmit` can send past it: `TcpSend.XmitExact` says how far it goes, `TcpSend.XmitWithinWindow` when it
  stays inside, and `TcpSend.XmitOverrunsWindow` is a run that does not.
- `tfcoalesce` does not test whether a push was recorded (`src/tcp/tfcoalesce.c:22`), so nearly all
  in-order data counts as pushed: `TcpReply.PushedAnyway`.
- `tcpok` takes the data off a segment that meets a closed window before `tcpackit` looks for data, so
  window probes go unanswered: `TcpReply.AnsweredIff`, `TcpReply.ProbeUnanswered`.
- `ipfjoin` compares the data with the size of a large buffer and forgets the headers
  (`src/ip/ipfjoin.c:36`), so a datagram with 2005 to 2048 octets of data is copied past the end of its
  buffer: `IpReassemble.StaysInside`, `IpRoundTrip.RoundTrip`, `IpRoundTrip.EthernetOverrun`. One with more
  is dropped (`IpRoundTrip.TooLargeNever`), and so is one that needs an eleventh fragment, counting
  duplicates, before it is complete (`IpRoundTrip.TooManyNever`).
- A route whose mask is shorter than the class mask of its net is missed by lookups in other buckets:
  `RouteLookup.ShortMaskMissed`.
- A route in a bucket with a time to live above 999 becomes unlimited if it counts down to exactly 999, and
  a default route with one is unlimited from the start (`src/route/rttimer.c:31,58`):
  `RouteLookup.LivesIff`, `RouteLookup.CountedToForever`, `RouteLookup.DefaultLivesIff`. No caller in the
  repository passes a larger one.
- `tmset` enters a timer as if it were set in the last round of the timer process
  (`src/tcp/tmset.c:20-51`, `src/tcp/tcptimer.c:39-49`), so it can go off early by the time since then,
  or by a tenth of a second if that is more than a second, as for the first timer on an empty list:
  `TcpTimers.NeverEarlier`, `TcpTimers.EarliestReached`, `TcpTimers.EarlyIff`.
- `strtclk` readies sleepers without giving the processor to one of higher priority while the time slice
  lasts: `SchedRuns.TicksTop` says exactly when, `SchedRuns.TickLeavesWaiting` is a run.
- `ipproc` compares the checksum it computes with the one stored, which refuses the second form of zero:
  `Checksum.AcceptedIff`.

## Model

| member | source | states |
|---|---|---|
| TcpReceive.ReceiveTcb.TcpOk | src/tcp/tcpok.c:12-44 | accepts exactly the segments the four-row acceptability table of section 3.3 of RFC 793 accepts, and takes the data off a segment that meets a closed window |
| TcpReceive.ReceiveTcb.TrimToWindow | src/tcp/tcpdata.c:31-51 | finds the part of a segment that lies in the window, and cuts a FIN off together with any data beyond it |
| TcpReceive.ReceiveTcb.CopyIn | src/tcp/tcpdata.c:52-57 | the copy loop lays the octets into consecutive ring slots with wrap-around and touches no other slot |
| TcpReceive.ReceiveTcb.StoreSegment | src/tcp/tcpdata.c:31-57 | every in-window octet of a segment goes to the ring slot of its own sequence number |
| TcpReceive.ReceiveTcb.TcpData | src/tcp/tcpdata.c:12-62 | the whole effect of an acceptable segment on ring, queue, rnext, FIN and push bookkeeping |
| TcpReceive.ReceiveTcb.TfCoalesce | src/tcp/tfcoalesce.c:12-62 | the loop over the fragment queue computes the function Absorb: how far rnext moves, what stays queued, whether the recorded FIN or push was passed |
| TcpReceive.ReceiveTcb.CloseHoles | src/tcp/tfcoalesce.c:31-51 | the same for the loop by itself, with the one stretch taken off too many put back |
| TcpReceive.AbsorbKeeps | src/tcp/tfcoalesce.c:18-60 | coalescing never moves rnext past a limit that all queued stretches respect |
| TcpReceive.ReceiveTcb.TcpDoDat | src/tcp/tcpdodat.c:11-43 | in-order data advances, data beyond a hole is remembered, FIN and push are acted on or put off |
| TcpReceive.ReceiveTcb.TfInsert | src/tcp/tfinsert.c:13-28 | a stretch is queued in order, or dropped when no queue is to be had or it is full |
| TcpReceive.ReceiveTcb.TcpRWindow | src/tcp/tcprwindow.c:11-31 | the offered window and the right edge it makes |
| TcpReceive.ReceiveTcb.TcpGetData | src/tcpd/tcpgetdata.c:11-49 | hands the reader the oldest unread octets in order, frees their slots, and reopens a closed window |
| TcpStream.LaidHolds | src/tcp/tcpdata.c:36-58 | a copied segment lands on the slots of its own octets and on no unread octet |
| TcpStream.LaidKeepsUnread | src/tcp/tcpdata.c:36-58 | no copy changes what the reader has yet to read, even for a segment that disagrees with earlier ones |
| TcpStream.AbsorbReach | src/tcp/tfcoalesce.c:31-50 | rnext moves only over stretches that were queued, and over all that touch it |
| TcpStream.AbsorbStop | src/tcp/tfcoalesce.c:18-51 | where coalescing stops there is a hole: nothing queued covers the next octet |
| TcpStream.AbsorbRest | src/tcp/tfcoalesce.c:44-51 | what is left in the queue was in it and is in order |
| TcpStream.CoalesceKeeps | src/tcp/tfcoalesce.c:18-60 | after coalescing, all octets up to rnext are in the ring and every stretch still queued lies beyond it |
| TcpStream.RememberKeeps | src/tcp/tfinsert.c:18-27 | remembering a stretch keeps the queue sorted, ahead of rnext and true of the ring |
| TcpStream.ArriveKeeps | src/tcp/tcpdata.c:36-58 | every segment that agrees with one stream keeps the receiver's invariant: ring, intervals and sequence numbers match that stream and rnext never moves back; a FIN is acted on exactly when it is known and all before it has come, and recorded until then |
| TcpStream.ArriveExact | src/tcp/tcpdodat.c:16-41 | exactly what a segment makes of the receiver: it has, besides what it had, the octets of the segment that lie in the window, unless they are ahead and the queue is full; the end is received if and only if its FIN is known, from this segment or an earlier one, and nothing is missing, and a FIN not acted on is recorded; output is asked for if and only if rnext moved; a push counts in its turn |
| TcpStream.TrimExact | src/tcp/tcpdata.c:36-58 | what is taken of an acceptable segment is exactly the octets in the window, and the FIN if the data before it does not go past the window |
| TcpStream.AcceptableIff | src/tcp/tcpok.c:23-43 | a segment that takes sequence numbers is acceptable if and only if one of them is in the window and it does not reach past both edges |
| TcpStream.InvIsValid | src/tcp/tcpdata.c:12-62 | that invariant gives everything the code relies on |
| TcpStream.ContentsAreStream | src/tcpd/tcpgetdata.c:30-36 | what the ring holds for the reader is the stream from the first unread octet to rnext |
| TcpStream.ReadKeeps | src/tcpd/tcpgetdata.c:30-47 | reading moves along the stream and keeps the invariant |
| TcpStream.ArriveKeepsWindow | src/tcp/tcpdata.c:36-58 | an arrival never takes back room that was advertised |
| TcpStream.AdvertiseKeepsWindow | src/tcp/tcprwindow.c:16-29 | the advertised right edge never moves back nor past the free room: all the room is offered if it is a quarter buffer and one segment (section 4.2.3.3 of RFC 1122), and otherwise what is left of the last offer |
| TcpStream.ReadKeepsWindow | src/tcpd/tcpgetdata.c:30-47 | a read moves the right edge only when the window was closed, to all the room if that is worth offering, and asks for output exactly then; the push is over when all was read |
| TcpReply.TcpInput | src/tcp/tcpinp.c:42-47 | takes an acceptable segment, answers one that is not |
| TcpReply.TcpAckIt | src/tcp/tcpackit.c:18-46 | answers with rnext and the offered window, unless the segment looks empty |
| TcpReply.AnsweredIff | src/tcp/tcpackit.c:20-22 | names the unacceptable segments that TcpInput answers, where section 3.9 of RFC 793 asks for an answer to all; that the code of the two routines behaves so is proved of TcpInput |
| TcpReply.ProbeUnanswered | src/tcp/tcpok.c:40-42 | a probe of a closed window with new data goes unanswered |
| TcpReply.PushedAnyway | src/tcp/tfcoalesce.c:22-25 | in-order data counts as pushed with no push recorded, exactly unless it ends at a recorded FIN |
| TcpSeq.SeqCmpExact | src/arch/s370/h/tcp.h:5-14 | the 32-bit comparison gives the true difference if and only if that fits 32 bits |
| TcpSeq.AcceptanceInWords | src/tcp/tcpok.c:29-38 | the acceptance test in 32-bit arithmetic is the unbounded one for every segment less than half the sequence space from the window |
| Ring.DepositSeenFrom | src/tcp/tcpdata.c:45-57 | what a circular copy changes, seen from any start index |
| Ring.ContentsAppend | src/tcpd/tcpwr.c:27-37 | writing behind the last octet appends it |
| Ring.ContentsDrop | src/tcp/tcpacked.c:48-49 | moving the start index drops from the front |
| TcpSend.SendTcb.TcpWr | src/tcpd/tcpwr.c:14-45 | appends the user's octets to the send ring, or refuses or waits without change |
| TcpSend.SendTcb.TcpSndLen | src/tcp/tcpsndlen.c:12-25 | offset and length of the next segment: never past what the ring holds, the peer's window or its segment size |
| TcpSend.SendTcb.TcpSend | src/tcp/tcpsend.c:30-97 | the segment carries the ring's octets at its own sequence number, and snext never moves back |
| TcpSend.SendExact | src/tcp/tcpsndlen.c:12-25 | for retransmissions and new segments alike: it starts at suna or snext, carries the ring's octets from there, and stops only at the end of what is held, at the peer's window or at its segment size; snext is where what was ever sent ends |
| TcpSend.RexmtCovers | src/tcp/tcpsend.c:29-36 | a retransmission carries at least what any earlier segment with the same start carried, the windows being what they were |
| TcpSend.SendTcb.TcpAcked | src/tcp/tcpacked.c:19-58 | retires exactly the octets a useful acknowledgement covers |
| TcpSend.AckedHolds | src/tcp/tcpacked.c:21-49 | the ring then holds what it held less those octets |
| TcpSend.AppendHolds | src/tcpd/tcpwr.c:27-37 | after a write the ring holds what it held and then the new octets |
| TcpSend.SendTcb.TcpXmit | src/tcp/tcpxmit.c:11-54 | exactly which segments the routine sends and where it leaves snext: on RETRANSMIT, with nothing to send and output asked for or not, against a closed window, and otherwise |
| TcpSend.SendTcb.TransmitLoop | src/tcp/tcpxmit.c:44-49 | the loop ends, with the result of the function Xmit |
| TcpSend.XmitBound | src/tcp/tcpxmit.c:44-49 | at least the window is used if there is enough to send, and at most window - 1 plus one segment is in flight unless more was before |
| TcpSend.XmitExact | src/tcp/tcpxmit.c:44-49 | exactly how much is in flight after the loop: nothing is added to a full window, else whole segments until it is covered, or all there is |
| TcpSend.XmitWithinWindow | src/tcp/tcpxmit.c:44-49 | exactly when the loop stays within the peer's window, whatever the congestion window: nothing was added, or all fits, or the segments that cover the smaller window do |
| TcpSend.XmitOverrunsWindow | src/tcp/tcpsndlen.c:22-24 | a run in which it does not: three octets in flight on an offer of two |
| TcpSend.XmitPayload | src/tcp/tcpsend.c:65-85 | the segments of one call are consecutive from snext on and carry exactly the octets between the old and the new snext |
| TcpSend.XmitFull | src/tcp/tcpxmit.c:46-49 | and all of them but the last are full |
| TcpSession.StepKeeps | src/tcp/tcpsend.c:65-85 | every event of writer, sender, network, receiver and reader keeps the invariant of the connection |
| TcpSession.Safety | src/tcp/tcpdata.c:36-58 | over every run with loss, duplication and reordering: what was read is a prefix of what was written, what is buffered follows it, acknowledgements on the network are at or below rnext and offer no more than the free room, rnext is at or below snext (one more for a FIN), and the end of data is signalled only when all of it is there; a FIN on a segment cut off short is left aside (TornIff) |
| TcpSession.EdgeNeverFalls | src/tcp/tcprwindow.c:16-29 | over every run the advertised right edge never moves back nor past the room there is |
| TcpSession.ResendCovers | src/tcp/tcpsend.c:29-36 | over every run: sending again carries at least what any segment carried that was cut earlier and starts where the acknowledged part ends, if the window is what it was |
| TcpSession.HeardLatest | src/tcp/tcpswindow.c:11-38 | over every run the sender goes by the last heard of the acknowledgements with the highest number |
| TcpSession.TornIff | src/tcp/tcpsend.c:39-42 | a segment sent agrees with what was written, and a FIN on it with where that ends, if and only if it is not one cut off short after the FIN was sent |
| TcpProgress.StuckForGood | src/tcp/tcppersist.c:16-22 | a connection whose sender believes the window closed, and whose receiver neither owes an acknowledgement nor will be made to send one, delivers nothing more, whatever any party does short of closing |
| TcpProgress.Finish | src/tcp/tcpsend.c:65-85 | from every other state in which the FIN was not sent some run hands over everything written, and the end too if the writer has closed, with the sends and acknowledgements the code makes and no others |
| TcpProgress.FinishFin | src/tcp/tcprexmt.c:18-25 | and so does one from every state in which the FIN was sent and what is unacknowledged fits in one segment |
| TcpProgress.TornEndsEarly | src/tcp/tcpsend.c:39-42 | if it does not fit, the retransmission carries the FIN bit with data that stops short of the end, and a receiver that expects those octets takes them for the last |
| TcpProgress.AnyCanEndEarly | src/tcp/tcpsend.c:39-42 | every new connection whose buffers hold more than one segment has a run to such a state: write one octet more than a segment takes, close, send it all, lose it, and send again |
| TcpProgress.FinishIff | src/tcp/tcpxmit.c:24-49 | so an open connection can deliver what was written if and only if it is not in such a state |
| TcpProgress.AnyCanStick | src/tcpd/tcpgetdata.c:43-47 | every new connection has a run into such a state: the ring fills, the reader empties it, and the acknowledgement that says so is lost |
| IpFragment.Netif.IpPutp | src/ip/ipputp.c:30-80 | sends whole what fits, reports what must not be cut, and sends the fragments of all else, or as many as there are buffers for |
| IpFragment.Netif.SendFragments | src/ip/ipputp.c:43-79 | the loop and the residual send exactly the function Split |
| IpFragment.Netif.IpfSend | src/ip/ipfsend.c:13-42 | one fragment: offset, length, more-fragments bit and octets |
| IpFragment.SplitPieces | src/ip/ipputp.c:43-72 | the fragments are consecutive non-empty pieces at multiples of eight octets, all but the last marked |
| IpFragment.PathPieces | src/ip/ipputp.c:66-67 | however often a datagram is cut again on its way, what arrives are pieces of it |
| IpFragment.ForwardFits | src/ip/ipputp.c:43-72 | every fragment fits the MTU it was cut for |
| IpFragment.ForwardFull | src/ip/ipputp.c:43-72 | what fits goes on whole, and every fragment but the last is as full as eights of octets allow |
| IpReassemble.ReassemblyTable.IpReass | src/ip/ipreass.c:15-79 | looks a fragment up by source and id, opens an entry, queues, and joins; what lies behind the large buffer is touched only in the outcome Overrun |
| IpReassemble.ReassemblyTable.IpfAdd | src/ip/ipfadd.c:12-39 | queues in order of offset and restarts the entry's time, or gives the entry up when the queue is full |
| IpReassemble.ReassemblyTable.IpfJoin | src/ip/ipfjoin.c:14-47 | the hole test over the queue cursor, and what it decides |
| IpReassemble.ReassemblyTable.IpfCons | src/ip/ipfcons.c:11-61 | the datagram rebuilt in the large buffer, behind the two headers: each octet once, skipping what was copied before, and nothing else written |
| IpReassemble.StaysInside | src/ip/ipfjoin.c:36-42 | the copy stays inside the buffer for every content of memory if and only if the data leaves room for the headers, 2004 octets |
| IpTable.JoinExact | src/ip/ipfjoin.c:25-46 | a queue with a hole, or whose last fragment says that more follow and ends at 2048 octets at most, is left as it is; any other is drained and its entry given back, for nothing if it reaches further or no buffer can be had, else for the datagram |
| IpTable.AssembleAt | src/ip/ipfcons.c:36-49 | each octet put together is that of the first fragment, in order of offset, that reaches past it, also where fragments disagree |
| IpTable.AddExact | src/ip/ipfadd.c:12-39 | what queueing does to an entry: taken in order with 60 seconds to go, or given up with its queue drained when full, or refused without change when given up before |
| IpTable.ReassExact | src/ip/ipreass.c:27-75 | what a packet does to the table: nothing if it is whole; else it goes to the one entry of its datagram, or opens the first free one if there is one and a queue can be had, and no other entry changes |
| IpTable.RunOk | src/ip/ipfjoin.c:36-46 | over any run of packets and timer ticks every entry in use with more than one fragment waits for more, every other entry holds none, no two are for one datagram, and none has used up its time |
| IpTable.IpfTimer | src/ip/ipftimer.c:11-46 | ages every entry and gives those back whose time is up |
| IpTable.KeptIff | src/ip/ipftimer.c:19-43 | an entry of whose datagram no fragment comes is kept as it is if and only if the timer counts off less than its time; after that the datagram is forgotten |
| IpRoundTrip.CompleteIff | src/ip/ipfjoin.c:25-44 | the hole test holds for a queue of fragments if and only if none is missing |
| IpRoundTrip.AssembleIs | src/ip/ipfcons.c:30-54 | the copying gives exactly the octets of the original, whatever overlaps |
| IpRoundTrip.JoinPieces | src/ip/ipfjoin.c:25-46 | joining gives nothing until all fragments are there, then the datagram; up to 2004 octets of data inside the buffer, up to 2048 past its end, and above that nothing |
| IpRoundTrip.RoundTrip | src/ip/ipfjoin.c:25-44 | for every payload, order and duplication within the queue limit, and whatever comes for other datagrams in between: nothing comes out while a fragment is missing, and the last missing one brings out the datagram as it was, whole up to 2004 octets of data and overrunning its buffer from 2005 to 2048 |
| IpRoundTrip.PathRoundTrip | src/ip/ipputp.c:66-67 | the same after any number of further fragmentation hops |
| IpRoundTrip.TooLargeNever | src/ip/ipfjoin.c:36-42 | a datagram with more than 2048 octets of data never comes out |
| IpRoundTrip.TooManyNever | src/ip/ipfadd.c:25-37 | once ten fragments came, duplicates included, with one still missing, none of the datagram's fragments gets anything out any more |
| IpRoundTrip.EthernetOverrun | src/ip/ipfcons.c:34-44 | 2005 octets of data cut for an Ethernet MTU: the second of the two fragments overruns the buffer |
| IpRoundTrip.PiecesDoNotNest | src/ip/ipfcons.c:37-54 | such runs meet the code's own demand: no fragment lies strictly inside another, and no copy has a negative length |
| Gpq.PriorityQueue.constructor | src/arch/s370/queue/gpq.c:209-242 | an empty queue of the size asked for, with its cursor reset |
| Gpq.PriorityQueue.Enq | src/arch/s370/queue/gpq.c:37-83 | inserts behind all keys not smaller, or refuses without change when full |
| Gpq.PriorityQueue.Deq | src/arch/s370/queue/gpq.c:90-124 | removes the head and moves everything up |
| Gpq.PriorityQueue.Headq | src/arch/s370/queue/gpq.c:130-158 | shows the head without removing it |
| Gpq.PriorityQueue.Seeq | src/arch/s370/queue/gpq.c:165-203 | one step of the cursor |
| Gpq.RunFaithful | src/arch/s370/queue/gpq.c:59-117 | over any run of enq and deq nothing is lost, duplicated or reordered: higher keys first and, among equals, the earlier first |
| Gpq.EnqTakes | src/arch/s370/queue/gpq.c:37-83 | an element enters if and only if there is room, and then it is the only change |
| Gpq.DeqServesBest | src/arch/s370/queue/gpq.c:111-117 | after any run deq gives the one waiting element that goes before all the others |
| Gpq.SeePass | src/arch/s370/queue/gpq.c:185-195 | a full pass of seeq shows every element once in order, then NULL, and resets the cursor |
| RouteHash.RtHash | src/route/rthash.c:15-43 | the loop computes the class-dependent bucket of an address |
| RouteHash.SameBucket | src/route/rthash.c:27-39 | an address that matches a net under a mask containing the class mask is in the net's bucket |
| RouteHash.HashExact | src/route/rthash.c:27-39 | exactly the prefix masks that contain the class mask have that property for all their addresses |
| RouteHash.CountOnes | src/route/rtadd.c:61-67 | the loop counts the ones of a mask |
| RouteHash.MoreSpecific | src/route/rtadd.c:57-67 | of two masks one inside the other, the larger has the larger sort key |
| RouteLookup.LookupIsBest | src/route/rtget.c:37-51 | with such masks the route found in one bucket has the most ones in its mask of all usable matching routes in all buckets, and the default is taken only if there is none |
| RouteLookup.RunLookupIsBest | src/route/rtadd.c:85-156 | the same after any run of calls in which every route added has such a mask |
| RouteLookup.ShortMaskMissed | src/route/rtget.c:37-47 | a usable route with a shorter prefix mask is missed for an address that matches it |
| RouteLookup.AddPolicy | src/route/rtadd.c:103-141 | what is left when a route for the net and mask was there: same gateway, new metric and old time to live; other gateway, the smaller metric |
| RouteLookup.AddNew | src/route/rtadd.c:150-156 | what is left when there was none: the new route and all others |
| RouteLookup.TimerExact | src/route/rttimer.c:26-56 | exactly the routes with a limited time to live that has run out are taken out |
| RouteLookup.AgeFromExact | src/route/rttimer.c:30-55 | the walk of one bucket unlinks exactly those, keeps the order of the others, and ages each once |
| RouteLookup.LivesIff | src/route/rttimer.c:26-56 | over any number of ticks a route in a bucket lives if and only if its time is more than they add up to, or some first part of them adds up to exactly what its time is above RT_INF |
| RouteLookup.CountedToForever | src/route/rttimer.c:31-32 | a time of 1005: four seconds and two make it unlimited, four at a time do not |
| RouteLookup.DefaultLivesIff | src/route/rttimer.c:57-69 | over any number of ticks the default route goes if and only if its time is below RT_INF and they use it up |
| RouteBook.DelExact | src/route/rtdel.c:32-58 | exactly what rtdel takes out: the default if it is for the net, whatever the mask; else the route for this net and this mask and no other, with the order kept and every record as it was |
| RouteRuns.DelFinds | src/route/rtdel.c:43-53 | there is something to take out if and only if a route of the bucket is for this net and mask |
| RouteBook.AddDup | src/route/rtadd.c:103-156 | what is left of a bucket that has a route for the net and mask: the same with another metric, the same, or the new one in its place |
| RouteBook.AddFirst | src/route/rtadd.c:87-99 | a route for a net and mask that has none goes behind all with at least as many ones in their mask and in front of all with fewer |
| RouteBook.StepKnown | src/route/rtadd.c:71-156 | what a call does to what the table says about one net and mask depends on that alone: additions, deletions and the timer act on it by the rules of Learn, lookups and releases not at all; and so for the default |
| RouteBook.RunKnown | src/route/rtdel.c:32-58 | over any run the table says about each net and mask what the calls made of that entry, one after the other: what was added and neither replaced, expired nor deleted |
| RouteBook.GetExact | src/route/rtget.c:52-55 | a lookup notes the use of the route it returns and takes a reference, and changes nothing else |
| RouteRuns.StepKeeps | src/route/rtfree.c:15-32 | every call keeps buckets sorted with net and mask unique, each count equal to one for the table and one for each reference held, and a buffer free just when its count is zero; only rtget takes a reference and only rtfree gives one back |
| RouteRuns.RunKeeps | src/arch/s370/h/route.h:47-52 | over any run, a route that some holder has not given back is the same route in a buffer that is not free |
| RouteRuns.HeldStays | src/route/rtfree.c:15-32 | no call changes a route that is held |
| RouteTable.RouteTable.constructor | src/route/rtinit.c:18-30 | empty buckets, no default, every buffer free |
| RouteTable.RouteTable.RtAdd | src/route/rtadd.c:21-168 | creation, scan, duplicate policy, default route and relinking make the step of the model |
| RouteTable.RouteTable.Scan | src/route/rtadd.c:87-99 | the scan stops at the duplicate or at the first smaller key |
| RouteTable.RouteTable.PutInPlace | src/route/rtadd.c:137-156 | the new route takes the place of a worse one, whose reference is dropped |
| RouteTable.RouteTable.RtGet | src/route/rtget.c:16-70 | returns the chosen route and takes a reference to it |
| RouteTable.RouteTable.RtDel | src/route/rtdel.c:15-62 | takes out the default or the route for exactly that net and mask, and says OK if and only if there was one |
| RouteTable.RouteTable.RtTimer | src/route/rttimer.c:15-76 | ages every bucket and the default, unlinking while it walks |
| RouteTable.RouteTable.RtNew | src/route/rtnew.c:20-66 | a buffer off the pool, with one reference |
| RouteTable.RouteTable.RtFree | src/route/rtfree.c:15-32 | one reference less, and the buffer back to the pool at zero |
| Heap.Memory.GetMem | src/arch/s370/memory/getmem.c:14-49 | first fit from the front of a block, or nothing |
| Heap.Memory.GetStk | src/arch/s370/memory/getstk.c:11-41 | last fit from the end of a block, with the size left in its last cell |
| Heap.Memory.FreeMem | src/arch/s370/memory/freemem.c:11-45 | refuses overlaps and blocks below the first free one, else inserts and joins on both sides |
| Heap.TakeCells | src/arch/s370/memory/getmem.c:29-44 | getmem takes exactly its own cells off the free list |
| Heap.TakeEndCells | src/arch/s370/memory/getstk.c:23-38 | getstk takes exactly its own cells |
| Heap.PutCells | src/arch/s370/memory/freemem.c:30-42 | freemem makes exactly the block's own cells free |
| Heap.PutOk | src/arch/s370/memory/freemem.c:22-42 | an accepted block leaves the list sorted, disjoint and fully joined |
| HeapRuns.RunKeeps | src/arch/s370/memory/freemem.c:17-42 | over any run of getmem, getstk and freemem the list stays sorted and fully joined, and free and live blocks partition the arena |
| HeapRuns.TakeLowest | src/arch/s370/memory/getmem.c:29-48 | getmem fails if and only if there are not that many free cells in a row anywhere, and else hands out the lowest such cells |
| HeapRuns.TakeEndHighest | src/arch/s370/memory/getstk.c:19-40 | getstk fails likewise, and hands out the highest such cells |
| HeapRuns.RefusesExact | src/arch/s370/memory/freemem.c:17-30 | freemem refuses exactly an empty block, one outside the arena, one below the first free block, and one with a free cell |
| HeapRuns.RefusedIff | src/arch/s370/memory/freemem.c:17-30 | a live block is refused if and only if it lies below the first free block |
| HeapRuns.FreeUndoesGetMem | src/arch/s370/memory/freemem.c:17-19 | freemem straight after getmem undoes it, exactly unless the block came off the front of the list and free memory is left above it |
| HeapRuns.FreeUndoesGetStk | src/arch/s370/memory/freemem.c:17-19 | the same for getstk, exactly unless it took the whole first block and another lies above |
| HeapRuns.HeadNeverFalls | src/arch/s370/memory/freemem.c:17-19 | the first free block never moves down while there is one |
| HeapRuns.RefusedForGood | src/arch/s370/memory/freemem.c:17-19 | so a block refused once is refused for good while memory does not run out altogether |
| TcpTimers.TimerList.TmSet | src/tcp/tmset.c:14-54 | removal of an old timer with the same key and insertion of the new one in the linked list |
| TcpTimers.TimerList.TmClear | src/tcp/tmclear.c:13-39 | unlinks the timer, carries what was left of it to the next, and says how long it ran |
| TcpTimers.TimerList.TmLeft | src/tcp/tmleft.c:12-30 | the sum of differences is the time remaining for that timer, 0 if it is not set |
| TcpTimers.TimerList.Tick | src/tcp/tcptimer.c:40-59 | one round: the elapsed time, bounded as the code bounds it, and the expiry loop |
| TcpTimers.TimerList.CountDown | src/tcp/tcptimer.c:49-59 | the expiry loop computes the function Expire |
| TcpTimers.ClearAbs | src/tcp/tmclear.c:21-34 | clearing a timer moves no other timer's deadline |
| TcpTimers.PlaceAbs | src/tcp/tmset.c:39-51 | inserting one moves no other, and puts it behind those due at the same time |
| TcpTimers.SetOk | src/tcp/tmset.c:27-51 | keys stay unique and differences nonnegative |
| TcpTimers.AsMap | src/tcp/tmset.c:27-51 | on the map from timers to remaining times, tmset binds exactly its key and tmclear unbinds exactly its key |
| TcpTimers.ExpireExact | src/tcp/tcptimer.c:49-59 | exactly the timers with at most the elapsed time left go off, in order of deadline, and every other remaining time falls by exactly that |
| TcpTimers.RoundExact | src/tcp/tcptimer.c:39-59 | what a round does to every timer: one with more left than is counted has that much less, any other goes off; counted is the time since the last round up to a second, and a tenth of a second if it is more or the clock was set back |
| TcpTimers.SetBehind | src/tcp/tmset.c:39-51 | a timer set goes behind every one due no later, and in front of all others |
| TcpTimers.SetAtExact | src/tcp/tmclear.c:21-34 | whatever is set or cleared besides, the list knows when each timer was set, from which tmclear tells how long it ran |
| TcpTimers.RunRefines | src/tcp/tcptimer.c:39-59 | over any run, with the clock set as it may be, the list of differences is a calendar of points on the clock: same timers, same order, same expirations; a timer's point counts from the last round, and time a round does not count moves all points |
| TcpTimers.PendingIff | src/tcp/tcptimer.c:49-59 | with rounds at most a second apart a timer has gone off if and only if a round was held at its point or later |
| TcpTimers.NeverEarlier | src/tcp/tcptimer.c:39-49 | no timer goes off earlier than its time less what a round at the moment it is set would count: the time since the last round, or a tenth of a second if that is more than a second or the clock was set back; the round after it is set may come after any time, as when the process was waiting |
| TcpTimers.EarliestReached | src/tcp/tmset.c:20-51 | and every timer can go off just then |
| TcpTimers.EarlyIff | src/tcp/tmset.c:20-51 | so a timer can go off before its time if and only if it was not set at the moment of a round |
| ProcQueue.QTable.constructor | src/arch/s370/queue/newqueue.c:11-26 | empty lists, with sentinel keys at both ends |
| ProcQueue.QTable.Insert | src/arch/s370/queue/insert.c:11-28 | puts a process in front of the first key not smaller |
| ProcQueue.QTable.Dequeue | src/arch/s370/queue/dequeue.c:11-20 | unlinks one process and nothing else |
| ProcQueue.QTable.GetLast | src/arch/s370/queue/getlast.c:11-20 | takes the highest key, the earliest inserted among equals, or says the list is empty |
| ProcQueue.QTable.GetFirst | src/arch/s370/queue/getfirst.c:11-20 | takes the lowest key, or says the list is empty |
| ProcQueue.QTable.InsertD | src/arch/s370/clock/insertd.c:14-59 | insertion into a list of differences, with the one behind adjusted |
| ProcQueue.SpliceSeparate | src/arch/s370/queue/insert.c:22-26 | linking a process in keeps every process on at most one list and there once |
| ProcQueue.CutSeparate | src/arch/s370/queue/dequeue.c:14-19 | so does unlinking one |
| ProcQueue.SpliceAllLinked | src/arch/s370/queue/insert.c:22-26 | the writes of insert leave every list of the shared array doubly linked |
| ProcQueue.CutAllLinked | src/arch/s370/queue/dequeue.c:14-19 | so do those of dequeue |
| SleepQueue.PlaceDWakes | src/arch/s370/clock/insertd.c:29-55 | the new sleeper's deadline is the one it asked for |
| SleepQueue.PlaceDNonNeg | src/arch/s370/clock/insertd.c:29-55 | no key becomes negative |
| SleepQueue.PlaceDOthers | src/arch/s370/clock/insertd.c:29-55 | every other sleeper's deadline and the order stay as they were |
| SleepQueue.CutDExact | src/arch/s370/clock/unsleep.c:29-34 | taking a sleeper off early changes no other deadline |
| SleepQueue.DeferExact | src/arch/s370/clock/strtclk.c:32-40 | ticks that were held back turn each deadline into what is left of it, or zero |
| SleepQueue.DeferAndWake | src/arch/s370/clock/strtclk.c:31-41 | after them and the wakeup that follows, exactly the sleepers with at most that long to go are off the queue |
| Sched.WakeKeeps | src/arch/s370/clock/wakeup.c:32-37 | waking keeps lists and process table in agreement |
| Sched.SwitchKeeps | src/arch/s370/process/resched.c:104-143 | so does a switch, and some process runs after it |
| Sched.SwitchLosesNone | src/arch/s370/process/resched.c:104-143 | no process that could run is lost, no other changes state |
| Sched.SwitchBest | src/arch/s370/process/resched.c:126-143 | the process chosen goes before all left ready: higher priority, or the same and waiting longer |
| Sched.ReschedSound | src/arch/s370/process/resched.c:77-143 | after resched some process runs, no ready one has a higher priority, none of equal priority has waited longer after a switch, and none was lost |
| SchedRuns.StepKeeps | src/arch/s370/process/chprio.c:25-33 | each call keeps all that, and after each but a clock restart no ready process outranks the running one |
| SchedRuns.RunKeeps | src/arch/s370/process/resched.c:77-143 | the same over any run of create, resume, suspend, sleep, wakeup, chprio and clock restarts |
| SchedRuns.RunTop | src/arch/s370/process/resched.c:92-139 | after any run in which some call rescheduled, and the clock was not restarted since, no ready process outranks the running one |
| SchedCalls.StateExact | src/arch/s370/process/resched.c:77-143 | what a call does to the state of each process: a sleeper whose time has come can run, if the call goes through wakeup; otherwise the process is in the state the call asks for, with ready and running exchanged by the switch alone |
| SchedCalls.TimeExact | src/arch/s370/clock/unsleep.c:29-34 | what a call does to the time at which each process wakes: sleep sets the caller's, unsleep takes one away, a clock restart takes off what was held back |
| SchedCalls.PrioExact | src/arch/s370/process/chprio.c:21-25 | no call changes a priority but chprio that of its process and create that of the new one |
| SchedCalls.SuspendExact | src/arch/s370/process/suspend.c:19-33 | a process that could run is suspended afterwards, on neither list and not running, and nothing else is asked for |
| SchedCalls.ResumeExact | src/arch/s370/process/resume.c:33-38 | a suspended process is ready or runs after resume |
| SchedCalls.SuspendedStays | src/arch/s370/process/suspend.c:19-33 | over any run without a resume of it a suspended process neither runs nor is ready nor sleeps |
| SchedCalls.SuspendedThenResumed | src/arch/s370/process/resume.c:33-38 | and after such a run a resume makes it ready or running |
| SchedCalls.DispatchExact | src/arch/s370/process/resched.c:92-139 | which calls leave the processor where it is; after any other the process that ran has it still only if all that are ready have a lower priority, and if another has it that one goes before all of them |
| SchedCalls.SliceExact | src/arch/s370/process/resched.c:92-139 | a call that reschedules gives a new time slice unless the process keeps the processor with time left, any other takes off only the ticks it makes up for |
| SchedCalls.OrderExact | src/arch/s370/queue/insert.c:19-26 | among processes of one priority the order of waiting stays, and no one gets in front of a process that waited already, chprio included |
| SchedRuns.TicksWake | src/arch/s370/clock/strtclk.c:28-43 | a clock restart readies exactly the sleepers that are due, and the others, in the same order, have that much less to wait |
| SchedRuns.TicksTop | src/arch/s370/clock/strtclk.c:28-43 | after a clock restart no ready process outranks the running one if and only if the time slice is used up, or none did before and none of the sleepers woken does |
| SchedRuns.TickLeavesWaiting | src/arch/s370/clock/strtclk.c:42-43 | a run from the start after which one does |
| SchedRuns.StopsAndRestarts | src/arch/s370/clock/strtclk.c:24-28 | after n stops, fewer than n restarts hold all ticks back, the last makes up for them at once, and any more do nothing |
| Kernel.Kernel.constructor | src/arch/s370/process/procinit.c:14-43 | the null process runs and all lists are empty |
| Kernel.Kernel.Resched | src/arch/s370/process/resched.c:77-143 | the decision to keep or switch, and the choice of the next process, on the arrays |
| Kernel.Kernel.Ready | src/arch/s370/process/ready.c:12-26 | refuses a bad pid, else marks and queues the process |
| Kernel.Kernel.NewPid | src/arch/s370/process/newpid.c:15-27 | finds a free entry of the process table if and only if there is one |
| Kernel.Kernel.Create | src/arch/s370/process/create.c:37-82 | refuses a priority below 1, or without stack or entry, else enters the new process suspended |
| Kernel.Kernel.Resume | src/arch/s370/process/resume.c:29-41 | readies a suspended process and reschedules, or refuses |
| Kernel.Kernel.Suspend | src/arch/s370/process/suspend.c:11-35 | takes a ready process off the list or the running one off the processor, or refuses |
| Kernel.Kernel.Wakeup | src/arch/s370/clock/wakeup.c:19-49 | readies every sleeper that is due and counts them |
| Kernel.Kernel.ChPrio | src/arch/s370/process/chprio.c:11-36 | every case of the switch on the state, the old priority returned, and the unsigned new one kept as a signed word |
| Kernel.Kernel.Unsleep | src/arch/s370/clock/unsleep.c:13-40 | takes a sleeper off and gives its remainder to the next, or refuses |
| Kernel.Kernel.Sleep10 | src/arch/s370/clock/sleep10.c:15-41 | refuses a negative time or a stopped clock, else queues the caller and gives up the processor |
| Kernel.Kernel.StrtClk | src/arch/s370/clock/strtclk.c:17-45 | only the last restart makes up for the ticks held back |
| Kernel.Kernel.MakeUpFor | src/arch/s370/clock/strtclk.c:32-40 | the loop over the keys computes the function Defer |
| TcpRtt.RttTcb.TcpRtt | src/tcp/tcprtt.c:10-48 | estimator and congestion window after an acknowledgement, with no sample taken while retransmitting |
| TcpRtt.RttTcb.CutWindows | src/tcp/tcprexmt.c:25-30 | threshold and window after a retransmission |
| TcpRtt.RunKeeps | src/tcp/tcprtt.c:17-41 | over any run of a new connection with samples from 0 to M: srt at most 8M, rtde at most 4M and at most 16M/7 + 11, both nonnegative, the timeout between half a second and the larger of that and 3M, and of that and 1.7M + 5.5, and a congestion window of at least one segment |
| TcpRtt.SrtReached | src/tcp/tcprtt.c:24-31 | for every M some such run reaches 8M |
| TcpRtt.RtdeReached | src/tcp/tcprtt.c:32-34 | for M = 1 one reaches 4M |
| TcpRtt.NearlyReached | src/tcp/tcprtt.c:25-38 | for M a multiple of 8^5, runs with rtde at 2.2M and the timeout at 1.66M |
| TcpRtt.SampleCoupled | src/tcp/tcprtt.c:25-33 | why: a sample keeps 7M(rtde - 11) at most srt(8M - srt), since whatever makes the deviation grow moves the estimate |
| TcpRtt.Towards | src/tcp/tcprtt.c:25-26 | a sample moves the estimate towards itself and never past itself |
| TcpRtt.Settles | src/tcp/tcprtt.c:25-26 | under a constant round trip time the estimate becomes that time |
| TcpWindow.SampleExact | src/tcp/tcprtt.c:19-40 | the estimate moves an eighth of the way to the sample, the deviation a quarter of the way to the distance, and the timeout is the estimate and twice the deviation, at least half a second: each as near as whole numbers allow |
| TcpWindow.NoSample | src/tcp/tcprtt.c:18 | an acknowledgement while retransmitting, or with no timer running, changes the congestion window only |
| TcpWindow.SlowStart | src/tcp/tcprtt.c:42-43 | below the threshold each acknowledgement adds a segment |
| TcpWindow.OpenAbove | src/tcp/tcprtt.c:44-46 | above it one adds a segment squared over the window, rounded down |
| TcpWindow.Linear | src/tcp/tcprtt.c:44-46 | any number of them add at most as many segments squared over the window, and at least that over the window reached less one octet each |
| TcpWindow.OneWindow | src/tcp/tcprtt.c:44-46 | so those of one window add at most one segment |
| TcpWindow.OneWindowAtLeast | src/tcp/tcprtt.c:44-46 | and not much less, if they cover it |
| TcpWindow.DroppedExact | src/tcp/tcprexmt.c:25-30 | a retransmission leaves a window of one segment and a threshold of half the smaller of the peer's window and the congestion window, or the threshold while retransmitting, but one segment at least |
| TcpWindow.AfterLoss | src/tcp/tcprexmt.c:25-30 | after a loss the window opens by a segment an acknowledgement until it reaches half of what it was |
| Checksum.TwoFoldsSuffice | src/ip/ipcksum.c:38-42 | for any 32-bit sum two folds give the same 16 bits as carrying around for as long as there is a carry |
| Checksum.StevensCksum | src/ip/ipcksum.c:20-45 | the loop and folds give the complement of the ones-complement sum of the big-endian words, an odd octet being a high half |
| Checksum.IpCksum | src/ip/ipcksum.c:53-72 | the same with the checksum field taken as zero, and the header unchanged afterwards |
| Checksum.TcpCksum | src/tcp/tcpcksum.c:10-40 | the same over pseudo header and segment; at most the pad octet behind an odd segment is written |
| Checksum.ComerCksum | src/arch/s370/mvs/comer_cksum.c:18-36 | the same bits as stevens_cksum on the same even number of octets, as a signed halfword |
| Checksum.StoreThenZero | src/ip/ipcksum.c:53-72 | with the result stored in the field that was zero, a computation over all of it gives 0 (section 1 of RFC 1071) |
| Checksum.TcpStoreThenZero | src/tcp/tcpackit.c:39-42 | the same for a TCP segment, which is what the receiver tests |
| Checksum.OneWordChanged | src/tcp/tcpinp.c:27-31 | one changed word goes unseen if and only if it went between all zeros and all ones |
| Checksum.PseudoIs | src/tcp/tcpcksum.c:20-36 | tcpcksum is the checksum over the pseudo header of section 3.1 of RFC 793 and the segment, laid out one behind the other |
| Checksum.AddressChanged | src/tcp/tcpcksum.c:22-26 | one changed word of the addresses goes unseen if and only if it went between all zeros and all ones |
| Checksum.LengthSeen | src/tcp/tcpcksum.c:28 | a zero octet lost or gained at the end of a segment is always seen |
| Checksum.AcceptedIff | src/ip/ipproc.c:59-67 | the receiver's comparison agrees with that rule for every stored value but one: all ones stored for a checksum of zero |
| Ctci.Buffer.constructor | src/arch/s370/ctc/ctci_write.c:50-60 | a fresh buffer is an empty block |
| Ctci.Buffer.Append | src/arch/s370/ctc/ctci_write.c:174-187 | the segment goes over the old end marker, the offset addresses the new one, and all earlier segments stay |
| Ctci.Writer.CtciWrite | src/arch/s370/ctc/ctci_write.c:83-209 | appends, or hands the buffer over and starts another, or refuses a frame too long for any buffer |
| Ctci.RunWrites | src/arch/s370/ctc/ctci_write.c:141-187 | over any run the buffers hold every frame not too long, in order, and none overflows |
| Ctci.WriteExact | src/arch/s370/ctc/ctci_write.c:145-171 | a buffer is handed over exactly when the next frame goes past 20480 octets behind what is there; a frame over 20470 octets is refused |
| Ctci.SegmentIs | src/arch/s370/ctc/ctci_write.c:178-183 | a segment is the frame behind a header of its length, the frame type and zeros |
| Ctci.Walk | src/arch/s370/ctc/ctci_iowrite.c:232-241 | the walk over the segments finds exactly the frames written, in order, and stops at the end marker |
| Ctci.WriteLength | src/arch/s370/ctc/ctci_iowrite.c:213-214 | the length written covers all segments and the end marker, and fits the buffer |
| Ctci.OneReading | src/arch/s370/ctc/ctci_iowrite.c:232-241 | a buffer stands for one list of frames only |

## Left out

- Fragment queues of a TCB and of a reassembly entry: held there as sequence values with the operations that `Gpq` proves of its arrays, so sharing of queue objects and the limit on the number of queues are not captured.
- Semaphores, mutexes, `disable` and `memlock`: each routine is one atomic step; what a blocked caller waits for is not modelled, and `rtadd` is taken at a moment when a route buffer is free.
- TCP connection set-up and the closing side of the sender, urgent data, TCP and IP options, RST handling: the model is the data phase of an established connection, with the FIN bit of the writer's side; how a FIN is counted in snext and acknowledged is left out, so the model goes on sending it after it was acknowledged.
- Sequence numbers: unbounded in the TCP model; `TcpSeq` says when the 32-bit arithmetic of the code agrees, and that agreement is not carried through the other routines.
- The connection of `TcpSession` carries data one way. Its sender may send new octets whenever the peer's window is not full, which leaves out the congestion window; the limit on retransmissions and the timers that cause them are left out, and a retransmission can happen whenever octets are unacknowledged or the window is closed.
- TcpSend.SendTcb.TcpXmit: does not model the retransmission limit, the cut of the windows (that is `TcpRtt.RttTcb.CutWindows`) and the timers, because they change nothing that is sent in the call.
- Side effects of TCP routines on timers, wakeups and output scheduling, except the flag that asks for output; `tmclear` in `tcprtt` is a parameter, the time it returns.
- Memory: addresses are in cells of eight octets, the unit to which `freemem` and `getmem` round; rounding of unaligned addresses and overflow of `nbytes + 7` near the top of the address range are not modelled; stacks are asked for in multiples of eight octets.
- Heap.Memory.GetStk: asks for sizes that are a multiple of eight octets, because the code rounds others to four, which `freemem` and `getmem` do not.
- IP field widths: the 13-bit fragment offset and 16-bit lengths are not bounded in the model; the message that `ipftimer` sends for an expired entry is left out; headers are 20 octets.
- IpReassemble.ReassemblyTable.IpReass: asks that no fragment of a datagram that is put together ends before an earlier one, because the length of the copy would be negative; `PiecesDoNotNest` says that fragments cut by the code never do.
- IpReassemble.ReassemblyTable.IpfJoin: asks the same.
- IpReassemble.ReassemblyTable.IpfCons: the header is 44 octets that the caller names, and its length and offset fields are set in the result and not among those octets.
- `tfinsert`: failure of `getmem` for the fragment record itself is not modelled, only that no queue can be had.
- `tcptimer`: events go to a list, where the code drops them if the port is full; a round may come at any time, where the process suspends itself while the list is empty.
- TcpSession.Safety: does not model a FIN on a segment that is cut off short, because the code then breaks the property (`TcpProgress.TornEndsEarly`).
- TcpSend.SendTcb.TcpSend: sends no FIN; `TcpSession.Outgoing` adds the FIN bit.
- TcpRtt.RunKeeps: the bounds on rtde and the timeout for large samples are not shown to be the least; the runs of `NearlyReached` come within a twentieth of their order.
- RouteTable.RouteTable.RtAdd: is taken at a moment when a buffer is free, because the code waits for one.
- RouteTable.RouteTable.RtNew: the same.
- Routes: RIP, the mutex, tracing and the first-use initialisation; addresses are sequences of 32 bits and broadcast recognition is a parameter; a default route with net 0 is told apart by its net, as the code does.
- Ready list and sleep queue: the q array holds these two lists only; semaphore queues, context switching, and the timer interrupt that decrements the first key are not modelled; `resched` ends with the choice of the next process; of the calls that end or block a process only `suspend` and `sleep10` are modelled, so no process dies.
- Kernel.Kernel.Sleep10: is not called by the null process, which has to stay ready for there to be a process to run.
- Kernel.Kernel.Create: leaves out the stack itself, the arguments and the environment, because only the process table is modelled.
- CTCI: device I/O, the number of buffers in the pool and the hand-over between processes; the first buffer is there from the start.
- Checksums: buffers up to 65536 octets, the most for which the C sum fits its int.
- Everything generated or around these cores: configuration parsing, dumps and traces, SNMP, RIP, OSPF, DNS, finger and rwho.
