# A verified model of the Homa transport

Homa is a receiver-driven transport for short messages. This project models the
parts of its Linux kernel implementation where correctness is hardest to see,
and proves properties of them for all inputs and all runs:

- **Grants.** The receiver keeps incoming messages in a two-level list (peers,
  and the messages of each peer), chooses a bounded set of active ones, and
  grants bytes to them under a window per message and a limit for all. The
  model is the class `Grant.Homa`, with the order of the lists in `RankedList`
  and the facts about its state in `GrantState`.
- **Messages in transit.** A sender cuts a message into GSO packets
  (`Outgoing`), sends them as far as granted (`Sender`) and retransmits whole
  segments (`Resend`); a receiver reassembles packets in any order (`GapList`,
  `MessageIn`), copies them to where the application looks for them (`Buffers`)
  and asks for missing bytes (`Timer`). `Transfer` puts the two nodes together
  over a network that may lose, duplicate and reorder packets. `Wire` has the
  packet formats.
- **Receive buffers.** A pool of pages with reference counts, pages owned by
  cores, leases that expire, and a queue of waiting RPCs (`PoolState`, `Pool`).
- **The life of an RPC.** When a server may forget an RPC (`Peer`, `Acks`), and
  how RPCs get to the threads that wait for them (`Handoff`).
- **Representations.** Packets that share memory pages (`SkbState`, `Skb`), and
  ring buffers of events that are merged by time (`Timetrace`).

Code that changes state in place is modelled by classes and methods with loops,
which are proved against pure definitions; protocols are methods over one step
each, together with a `Run` over every sequence of steps. A `Run` returns the
trace of its states, and says of each of them what is safe, and of each step
what it does (`Does`). `Sequences` holds a few notions that several modules
share.

## Modelling decisions

- Integers are unbounded; lengths and counters of the kernel are far from their
  limits. The computation of the GSO packet size, which can wrap around, has the
  widths of the code. Offsets on the wire are encoded in four bytes, and the sum of offset
  and length in a RESEND may be less than the offset, as the unsigned sum in
  the code is when read as a signed number.
- Each call of `homa_grant_recalc` and of the pool is one step, and so is each
  section of the handoff code under the lock of the socket or of an RPC.
- The clock, the answers of the memory allocator and of the network card's
  queue, and the core a call runs on are parameters.
- Segmentation by the network card is an ideal splitter for the two layouts of
  GSO packets; the data offset is the TCP field of section 3.1 of RFC 9293.
- What a message has outstanding counts as 0 until the message is initialized.

## Where the code differs from what one might expect

- `homa_grant_remove_rpc` compares the removed RPC, not the new head of the
  peer's list, with the peers that follow. A peer can therefore fall below
  peers that it outranks. `PeersAfterMoveDown` states exactly when the order is
  kept, and `RemovalCanBreakOrder` gives a state in which it is not. Since data
  that arrives for an RPC does not reposition it either
  (`RisingPriorityNeedsReposition`), order is a precondition of the results
  about adding and picking, not an invariant of runs.
- A configured `max_rpcs_per_peer` below 1 acts like 1 (`Homa.PeerCap`).
- A receiver that has got as many bytes as it has granted sends no RESEND, even
  if some of them lie beyond the granted ones and a granted byte is missing.
  A due check asks for everything missing exactly if fewer bytes have come than
  were granted, or if there are no gaps and nothing granted is outstanding
  (`Timer.Rpc.CheckRpc`). `GrantedByteNotRequested` runs into the other case,
  and `SatisfiedIfComplete` shows that it cannot persist once the message is
  granted completely.
- An abort of a client RPC is lost if it comes while a thread, with the RPC lock
  dropped, copies packets of that RPC: the result of the copy replaces the error
  (homa_incoming.c:1370-1372). `AbortIsLost` shows that this can happen whenever
  a thread is copying, `LoseAbort` is such a run, and over every run
  (`Handoff.Socket.Run`) any other abort is kept until its error is returned.
- The total of outstanding bytes may rise above the limit without a new message:
  what a new message may send unscheduled counts only once it is recorded
  (`RecordingRaisesTotal`). The results about the total therefore include this
  debt.
- If not even one full segment fits into a GSO packet, packets with one segment
  are made all the same and exceed the limit: `FullSegmentTooLong`. If not even
  the headers fit, the unsigned arithmetic wraps around; when TCP packets are
  hijacked, packets then get a negative number of bytes and the loop that makes
  them never ends (`GsoDataNegative`, `ProgressIf`).
- A full ring of a time trace holds one event more than is printed.

## Model

| member | source | states |
|---|---|---|
| RankedList.OutranksIsStrictTotal | homa_grant.c:20-29 | The priority test is a strict order, total up to equal bytes remaining and birth time; fewer bytes remaining decide, then age. |
| RankedList.FindSlot | homa_grant.c:94-102 | The forward scan stops before the first entry that the new one outranks. |
| RankedList.MoveUp | homa_grant.c:104-116 | Moving up entry by entry stops behind the first entry that is not outranked; all others keep their order. |
| RankedList.MoveDown | homa_grant.c:202-212 | Moving down stops before the first entry that the given rank does not outrank; all others keep their order. |
| RankedList.FoundSlotKeepsSorted | homa_grant.c:94-102 | Inserting at the slot found keeps a list in order. |
| RankedList.MovedUpIsSorted | homa_grant.c:104-116 | A list in order except for one entry that sits too low is in order after that entry has moved up. |
| RankedList.StableSortSorts | homa_grant.c:494-557 | The reference sort gives an ordered permutation that keeps the given order among equal ranks. |
| RankedList.SortedIsUnique | homa_grant.c:494-557 | There is only one such permutation, so the reference is independent of how it is computed. |
| RankedList.BestOfOneMore | homa_grant.c:527-544 | Inserting into the best `m` and cutting off again gives the best `m` of one candidate more. |
| RankedList.RestDoesNotFit | homa_grant.c:534-535 | If a candidate does not fit among the best `m`, no candidate that it outranks or ties does. |
| Grant.Homa.UpdateIncoming | homa_grant.c:44-60 | Records what a message has outstanding; the total stays the sum over all messages; reports exactly whether the total fell below the limit. |
| Grant.Homa.PositionRpc | homa_grant.c:79-117 | The RPC ends up in its peer's list, which is in order if only this RPC was out of place; nothing else changes. |
| Grant.Homa.PositionPeer | homa_grant.c:124-151 | The peer ends up in the peer list, which is in order if only this peer was out of place; nothing else changes. |
| Grant.Homa.AddRpc | homa_grant.c:69-154 | From any state in which only the given RPC may sit too low or be absent, both list levels end up in order: every earlier message, and the first message of every earlier peer, has fewer bytes remaining, or as many and is not younger; the contents otherwise stay the same and links stay consistent. |
| GrantState.OrderedMeans | homa_grant.c:20-29 | Lists are in order if and only if in each of them, and among the first messages of the peers, fewer bytes remaining come first, and the older message among equals. |
| Grant.Homa.RemoveRpc | homa_grant.c:162-213 | The RPC is gone from the lists, its peer too if it has no others; links stay consistent, per-peer order is kept, and the order of peers is kept exactly if RemovalKeepsOrder holds. |
| GrantState.PeersAfterMoveDown | homa_grant.c:200-212 | After the head of a peer was removed and the peer moved down as the code does, the peers are in order if and only if the peer was last, or the next peer tied with the removed head and the new head does too, or none tied and the new head does not outrank the last peer. |
| GrantState.RemovalCanBreakOrder | homa_grant.c:200-212 | A state in order for which removing an RPC leaves the peers out of order. |
| GrantState.RisingPriorityNeedsReposition | homa_grant.c:324-333 | When data arrives for an RPC in ordered lists, only that RPC, and its peer, can be out of place: the precondition under which adding repairs the order. |
| Grant.Homa.SendGrant | homa_grant.c:222-264 | A grant is sent exactly if window, end of message and overall limit leave room and the sender is not silent; it reaches exactly as far as those allow. |
| Grant.Homa.GrantAndRecord | homa_grant.c:222-264 | Right after a grant is sent and recorded the total is at most the limit, and the message is fully granted or needs nothing more. |
| Grant.Homa.ShiftIn | homa_grant.c:536-544 | Shifting in place makes room at a position; of a full array the last entry is lost. |
| Grant.Homa.InsertBest | homa_grant.c:527-544 | The in-place step equals inserting into the ordered sequence and cutting it to the maximum. |
| Grant.Homa.PickFromPeer | homa_grant.c:520-548 | The RPCs of one peer, up to the limit per peer, join the choice; leaving the loop early loses nothing if the list is in order. |
| Grant.Homa.PickRpcs | homa_grant.c:504-557 | On ordered lists, the choice is the beginning of the stable priority sort of each peer's first RPCs, despite early exits and shifting in place: a message among the first of its peer is left out only if the choice is full and every chosen one has fewer bytes remaining, or as many and is not younger; on any lists the choice is distinct, listed, and within the limit per peer. |
| GrantState.BestIsRight | homa_grant.c:504-557 | No candidate is left out of the reference choice for one with more bytes remaining, or as many and a later birth. |
| Grant.Homa.ClearRanks | homa_grant.c:417-419 | No message has a rank afterwards, and nothing else changes. |
| Grant.Homa.AssignRanks | homa_grant.c:427-449 | Exactly the chosen messages get a rank, their position; priorities lie within the scheduled ones and fall one by one, to 0 at the end if there are enough of them, otherwise from the highest down to 0 for all the rest. |
| Grant.Homa.Activate | homa_grant.c:417-462 | The active messages are the right choice, named by their ranks, with falling priorities; the window is the configured one, or else the limit divided by one more than their number; nothing else about messages changes. |
| Grant.Homa.GrantNext | homa_grant.c:468-482 | An active message gets its grant and its debt is paid into the total; if another round is called for, the amount of work left has fallen. |
| Grant.Homa.Recalc | homa_grant.c:386-492 | Terminates, and ends with nothing to grant: every active message has a silent sender or its share outstanding (the configured window, or less than one byte short of its part of the limit), or the limit is used up; the choice is right on ordered lists; no message drops out of the lists unless it is fully granted; neither the debt (bytes outstanding but not recorded) nor the debt plus the larger of total and limit rises. |
| Grant.Homa.MessageInInit | homa_incoming.c:22-46 | The new message exactly as it is entered: granted its unscheduled bytes, at most its length, or nothing without buffers, and nothing recorded; the debt rises by exactly what it may send unscheduled; all invariants are kept. |
| Grant.Homa.CheckRpc | homa_grant.c:275-370 | With buffers, the message is recorded, so that its debt is paid, and listed as long as it needs grants; an active one gets what it should have, and what remains of it is known; the choice is made anew if this message may belong into it or further up, and a message that is not active and may not leaves choice and grants alone; all invariants are kept, and neither the debt nor the debt plus the larger of total and limit rises. |
| Grant.Homa.FreeRpc | homa_grant.c:609-636 | The message leaves no trace in lists, choice and total; all invariants are kept, and neither the debt nor the debt plus the larger of total and limit rises. |
| Grant.Homa.Run | homa_grant.c:44-60 | Over every run, at every point, the total equals the sum of recorded contributions, and GRANT offsets of a message strictly increase within its length; between any two points, the total rises above the larger of limit and earlier total by at most the earlier debt and the unscheduled bytes of the messages that are new since; without debt and new messages it does not rise at all. Every step does what its event asks for. |
| Grant.Homa.Handle | homa_grant.c:275-370 | What each event does to the messages; any event keeps all invariants; the debt, and the debt plus the larger of total and limit, rise by at most the unscheduled bytes of a new message; a check pays the debt of its message. |
| Grant.Homa.FirstPacket | homa_incoming.c:549-552 | When the first packet of a message has been handled to the end, its bytes are counted, and there is no more debt than before it came. |
| GrantState.CoveredIfNoDebt | homa_grant.c:44-60 | There is no debt if and only if every message's contribution covers what it has outstanding. |
| GrantState.DebtPaid | homa_grant.c:44-60 | Recording a message moves exactly what it owes out of the debt; with or without a grant before it, the debt plus the larger of total and limit does not rise. |
| Grant.RecordingRaisesTotal | homa_grant.c:44-60 | A run in which the total rises above the limit without a new message, because a debt is paid. |
| GapList.GapAppended | homa_incoming.c:126-137 | A packet beyond everything received leaves exactly one new gap. |
| GapList.FilledValid | homa_incoming.c:142-190 | Filling part of a gap keeps gaps nonempty, sorted, disjoint, and for nonempty packets apart. |
| GapList.FilledReceived | homa_incoming.c:142-190 | Filling part of a gap adds exactly the packet's bytes to those received. |
| MessageIn.MessageIn.AddPacket | homa_incoming.c:106-208 | For nonempty packets the gaps stay sorted, nonempty, apart and below the end; the bytes remaining are the number of unreceived bytes; a packet within the message is kept if and only if none of its bytes was received before, unless memory for a gap is lacking, and then there are no more gaps than before. |
| MessageIn.MessageIn.FillGap | homa_incoming.c:139-191 | The scan of the gap list finds the gap that contains the packet, if there is one, and otherwise the packet has a received byte. |
| MessageIn.MessageIn.CopyPacket | homa_incoming.c:275-312 | Each byte of the packet is stored at the place of its offset, and no other place in the region changes. |
| MessageIn.MessageIn.TakeBatch | homa_incoming.c:246-262 | Up to 20 packets leave the queue, in order, without being lost. |
| MessageIn.MessageIn.CopyNext | homa_incoming.c:285-312 | Every received byte of the message is in place or still pending, also while more packets arrive. |
| MessageIn.MessageIn.CopyToUser | homa_incoming.c:220-351 | Ends with nothing pending, and without touching what belongs to other messages. |
| MessageIn.MessageIn.Complete | homa_incoming.c:1381-1384 | Once nothing is missing or pending, every byte of the message is in its place. |
| Buffers.AddrInjective | homa_pool.c:378-390 | No two bytes of a message share a place, and all places are in the region. |
| Buffers.GetBufferFits | homa_pool.c:378-390 | The bytes the kernel stores in one piece are exactly where they belong. |
| Buffers.GetFinds | homa_receiver.h:44-93 | The application gets a pointer exactly for objects within the message and within one bpage, and it leads to the bytes at that offset. |
| Wire.EncodeRoundTrip | homa_wire.h:221-229 | Offsets survive network byte order and are never mistaken for the marker of a missing offset. |
| Wire.LocalIdInverts | homa_wire.h:477-483 | Clients have the even identifiers; each end computes the other's identifier, and exactly one of them is the client. |
| Outgoing.FillInterleaved | homa_outgoing.c:47-82 | A packet body has a header with its offset before each segment but the first. |
| Outgoing.NewDataPacket | homa_outgoing.c:102-174 | Packets have one of the two GSO layouts, with the right number of segments, or the simple one if one segment suffices. |
| Outgoing.SegmentationRoundTrip | homa_wire.h:183-219 | In both layouts, splitting at gso_size and decoding offsets gives back exactly the segments of the packet's part of the message. |
| Outgoing.SharedHeaderSegments | homa_offload.c:312-318 | With a shared header, sequence numbers advanced by the splitter are the offsets. |
| Outgoing.OwnHeadersSegments | homa_outgoing.c:47-82 | With headers in between, each piece starts with the header of its segment. |
| Outgoing.MessageOutFill | homa_outgoing.c:199-317 | Lengths of 0 or above the maximum are refused, and no others; the loop fails to end exactly if the computed packet size, with its wrap-around, is not positive; otherwise packets tile the message with a boundary at the unscheduled bytes, each as long as possible, and if at least one segment fits into a GSO packet, every packet fits. |
| Outgoing.CutPackets | homa_outgoing.c:275-311 | The loop covers the message in order, without gaps or overlaps, and crosses the end of the unscheduled bytes in no packet. |
| Outgoing.FullSegmentTooLong | homa_outgoing.c:253-262 | A packet with one full segment exceeds the limit if and only if the headers do not fit into it or the computed number of segments is 0. |
| Outgoing.OneMoreTooLong | homa_outgoing.c:247-260 | A packet with one segment more than computed would exceed the limit. |
| Outgoing.GsoDataFits | homa_outgoing.c:247-262 | If the headers fit, the computation does not wrap around: the packet size is the number of segments that fit, at least one, times their size. |
| Outgoing.GsoDataNegative | homa_outgoing.c:247-262 | If the headers do not fit and TCP packets are hijacked, the packet size is negative. |
| Outgoing.ProgressIf | homa_outgoing.c:275-298 | Each iteration takes at least one byte if and only if the packet size is positive. |
| Resend.SegmentsFitMtu | homa_outgoing.c:234-245 | Everything a packet is split into fits the MTU, and all but the last segment fill it. |
| Resend.ResendPacket | homa_outgoing.c:655-722 | From one packet, exactly the segments that meet the range are sent again, with original boundaries, in both layouts. |
| Resend.ResendData | homa_outgoing.c:630-727 | Retransmissions are exactly the original segments of the message that meet the range, in order. |
| Resend.AllCovered | homa_outgoing.c:275-311 | Every byte of the message is in a segment. |
| Resend.AllDisjoint | homa_outgoing.c:275-311 | No byte is in two different segments. |
| Sender.MessageOut.constructor | homa_outgoing.c:18-32 | A new message has its unscheduled bytes granted and nothing sent. |
| Sender.MessageOut.XmitData | homa_outgoing.c:503-559 | Packets are sent in order from the granted bytes only; transmission stops early only at a packet that the network card has no room for, and waits for the card except with the last bytes or when forced; before any grant exactly the unscheduled bytes are sent. |
| Sender.MessageOut.StopsInTime | homa_outgoing.c:282-290 | First transmissions stop less than one GSO packet past the granted bytes, and at the unscheduled bytes if there was no grant. |
| Sender.MessageOut.GrantPkt | homa_incoming.c:665-688 | A GRANT raises the granted bytes, never beyond the length; all that is granted is then sent, up to a packet that the network card has no room for; with resend_all, everything sent before is sent again. |
| Sender.MessageOut.SentSegments | homa_outgoing.c:47-82 | What packets are split into are exactly the segments of the message that start between where the first packet starts and where the last one ends. |
| Sender.MessageOut.ResendPkt | homa_incoming.c:698-748 | BUSY is sent exactly if there is no response yet, granted bytes are unsent or the range is empty; otherwise the segments of the range are sent. |
| Sender.MessageOut.UnknownPkt | homa_incoming.c:756-794 | A waiting client sends everything again; a server frees the RPC. |
| Timer.GapRetry | homa_incoming.c:84-97 | The RESENDs ask for exactly the bytes in gaps. |
| Timer.Rpc.CheckRpc | homa_timer.c:20-120 | When a check is due and fewer bytes have come than were granted, its RESENDs ask for exactly the unreceived bytes below the larger of recv_end and granted; with buffers, a due check asks for all of those if and only if fewer bytes have come than were granted or there are no gaps and granted is at most recv_end; otherwise it asks for nothing; NEED_ACK is sent exactly for a response sent long enough ago; the RPC is aborted exactly if silent for too long. |
| Timer.Rpc.SatisfiedIfComplete | homa_timer.c:47-60 | A receiver with buffers that expects nothing more has every byte below the larger of recv_end and granted if and only if it has no gaps and granted is at most recv_end; for a fully granted message, it expects nothing more if and only if nothing is missing. |
| Timer.GrantedByteNotRequested | homa_timer.c:47-54 | A run: bytes 900 to 2300 arrive, 1000 are granted, and a due check does not ask for byte 0. |
| Transfer.WholeSegmentsKept | homa_outgoing.c:642-723 | Each segment stays received completely or not at all, because retransmissions keep the original boundaries. |
| Transfer.Repair | homa_timer.c:104-120 | A check, the sender's answers to its RESENDs, and a network that delivers them in any order, repeatedly and among other segments: every byte below the larger of recv_end and granted is received if the check is due, fewer bytes have come than were granted, there are buffers and the sender does not answer BUSY; otherwise nothing is retransmitted. |
| Transfer.AnswerAll | homa_incoming.c:719-742 | The retransmissions for a sequence of RESENDs are exactly the segments that meet one of their ranges, or nothing while the sender answers BUSY. |
| Transfer.Connect | homa_outgoing.c:199-317 | Messages of allowed length with a positive packet size, and only those, start in a state from which all results about runs follow. |
| Transfer.Link.Run | homa_incoming.c:360-570 | Every run of sender and receiver over an unreliable network keeps both in step, whatever is lost, duplicated, reordered or retransmitted, and whatever other messages write; at every point, once nothing is missing or pending, every byte of the message is in its place; every step sends, grants and delivers what its event asks for. |
| Transfer.Link.Handle | homa_incoming.c:360-570 | What each event does: which segments go out, how far the grants reach, and which bytes of an arriving packet are received. |
| Transfer.Link.GrantArrival | homa_incoming.c:665-688 | The network gains exactly the segments first sent now and, with resend_all, those sent before; all that is granted is sent, up to a packet that the network card has no room for. |
| Transfer.Link.ArriveAll | homa_incoming.c:106-208 | When everything has been sent and all of it arrives, in any order, nothing is missing. |
| Transfer.Link.EndToEnd | homa_receiver.h:44-93 | At any point of any run: once nothing is missing or pending, the application reads at each offset exactly the sent message, and can read every byte. |
| Transfer.Link.GrantsRespected | homa_incoming.c:665-688 | At any point of any run in which each GRANT reaches beyond the one before, within the length, as the scheduler's do (Grant.Homa.Run): the sender's granted is at most the larger of unscheduled and the receiver's granted; first transmissions end less than one GSO packet past that, and at unscheduled before any grant. |
| Pool.PoolInit | homa_pool.c:51-110 | A region is refused as invalid exactly if it is not page-aligned or has fewer than two bpages, and for lack of memory exactly if one of the two allocations fails; otherwise all invariants of the pool hold, with no buffer in use. |
| Pool.Pool.Claim | homa_pool.c:213-237 | Taking a free page, or stealing one whose lease expired, keeps references, owners and buffers consistent, and the reservation right. |
| Pool.Pool.Search | homa_pool.c:184-225 | A candidate is taken exactly if it is free or its lease has expired; each one that is not brings the search closer to a free page below the limit. |
| Pool.Pool.GetPages | homa_pool.c:154-243 | Succeeds exactly if enough pages were free, and terminates; the pages are distinct and had no buffer in use; no other page changes. |
| PoolState.FreeBelow | homa_pool.c:184-196 | Among more pages than are used, one is free, so the limited range always contains one. |
| Pool.Pool.AllocatePartial | homa_pool.c:276-341 | The last part of a message is placed on the core's own page if that has room or can be reused, otherwise on a new one, and not in anything in use; the page is the core's afterwards, with a renewed lease; it fails exactly if neither is possible. |
| Pool.Pool.RefreshOwned | homa_pool.c:297-312 | A full page is reused only if none of its buffers is in use; otherwise the core owns no page any more. |
| Pool.Pool.Allocate | homa_pool.c:256-362 | Succeeds whenever the free pages cover the need; the buffers are new, lie in the region, do not overlap, and suffice for the message; otherwise nothing is in use that was not before and the RPC is queued by length. |
| Pool.Pool.Enqueue | homa_pool.c:350-360 | The queue stays sorted by length, first come first among equals, and the number of pages needed is that of its first RPC. |
| Pool.Pool.Release | homa_pool.c:402-425 | An error is reported exactly for offsets beyond the pool; releasing buffers in use, once each, leaves exactly the others in use with right counts. |
| Pool.Pool.CheckWaiting | homa_pool.c:436-482 | Terminates, wakes each RPC at most once and loses none, with new buffers; afterwards no waiting RPC's need is covered by free pages, even if the recorded need was stale. |
| Pool.Pool.Cancel | homa_rpc.c:303 | Exactly the freed RPC leaves the queue; the recorded need may become too small, never too large. |
| PoolState.MessagesApart | homa_pool.c:378-390 | Bytes of different messages with buffers in use are never stored at the same place. |
| Pool.Socket.Run | homa_pool.c:256-482 | Over every sequence of allocations, releases, expiries and steals on any cores: at every point messages are disjoint, and every operation does what it should to messages, waiting RPCs and buffers in use; buffers are inside the region and within pages; references are buffers in use plus one for an owner; free pages are those without references; a core owns at most the page of its hint. |
| Peer.Peer.AddAck | homa_peer.c:383-406 | The ack joins the list, or an ACK packet takes all others and stands for this one. |
| Peer.Peer.GetAcks | homa_peer.c:417-433 | Takes acks from the end of the list; none is lost or repeated. |
| Acks.World.RecvMsg | homa_plumbing.c:1548-1550 | An RPC that ends with a result or error is acked, at once or later, and only ended RPCs are. |
| Acks.World.NeedAckAtClient | homa_incoming.c:827-874 | NEED_ACK is answered, with all acks that fit, if and only if the client has every byte of the response or the RPC has ended. |
| Acks.World.ResendAtClient | homa_incoming.c:707-713 | UNKNOWN is sent exactly if the RPC does not exist, and then it has ended. |
| Acks.World.AckArrives | homa_incoming.c:887-905 | Every RPC freed by an ACK packet or one of its acks is done at its client. |
| Acks.World.RequestArrives | homa_incoming.c:443-500 | Requests create server RPCs only for client RPCs that exist or existed; a piggybacked ack frees only RPCs that are done. |
| Acks.World.Acked | homa_rpc.c:212-258 | The acked RPC, and no other, is freed. |
| Acks.World.Run | homa_incoming.c:887-905 | Over every run and network behaviour, at every point: if a server freed an RPC because of an ACK, a piggybacked ack or UNKNOWN, the client has got every byte of the response or its RPC has ended. Every step does what its event asks for. |
| Acks.World.ResponseArrives | homa_incoming.c:106-208 | Exactly the bytes of a kept packet are added to what the client has, and a packet is kept exactly if there is room for it and all its bytes belong to the response and are new; the count of missing bytes follows. |
| Handoff.Socket.ChooseInterest | homa_incoming.c:1418-1441 | The first thread on an idle core is chosen, otherwise the first; none only if there is none. |
| Handoff.Socket.RpcHandoff | homa_incoming.c:1449-1528 | An RPC goes to a suitable waiting thread whose interest leaves all lists, or to the queue of its kind, unless it is already on its way. |
| Handoff.Socket.RegisterInterests | homa_incoming.c:1154-1208 | The first ready response, or else request, is claimed without leaving the interest in a list; otherwise the thread waits in exactly the lists of the kinds it asked for, at their front. |
| Handoff.HandOffKeeps | homa_incoming.c:1449-1528 | Afterwards the RPC is queued or being handed off, to one thread only; no other RPC moves. |
| Handoff.ClaimKeeps | homa_incoming.c:1182-1208 | Claiming keeps all invariants: the RPC is no longer queued, and only this thread has it coming. |
| Handoff.LockKeeps | homa_incoming.c:1360-1369 | Locking keeps all invariants: the RPC is held when it stops being handed off. |
| Handoff.FinishKeeps | homa_incoming.c:1370-1386 | Every way to finish keeps all invariants, although the copy's result replaces the RPC's error; no live RPC with packets is forgotten, and none that was aborted. |
| Handoff.DataKeeps | homa_incoming.c:622-628 | New packets make a live RPC of either kind ready, and it is queued, on its way or held; an RPC that is ready already stays taken care of; all invariants are kept. |
| Handoff.Socket.DataArrived | homa_incoming.c:622-628 | A live RPC becomes ready; if it was not ready, queued or on its way, exactly one thread that waits for its kind gets it, or it is queued last if none waits. |
| Handoff.Socket.EndCopy | homa_incoming.c:1370-1386 | An error ends the RPC, and so does a complete response; a server's RPC lives on, and an incomplete one waits for more packets. |
| Handoff.AbortKeeps | homa_incoming.c:998-1014 | Aborting an RPC, even one that a thread is copying, keeps all invariants; the abort of a client RPC is kept if and only if no thread is copying its packets. |
| Handoff.AbortIsReturned | homa_incoming.c:1370-1378 | Whoever holds an RPC with a kept abort returns its error, whatever the copy gives. |
| Handoff.AbortIsLost | homa_incoming.c:1370-1372 | From every state in which a thread copies packets of a live client RPC, an abort can be lost: when the thread is done, the RPC lives on without an error. |
| Handoff.LoseAbort | homa_incoming.c:1370-1386 | Such a run from the start, after which the RPC is live, without an error, and neither queued, on its way nor held. |
| Handoff.Socket.Run | homa_incoming.c:1224-1398 | Over every interleaving, at every point: an interest receives at most one RPC; no RPC is queued while it is handed off; a live RPC with packets is queued, on its way to exactly one thread, or held by a thread copying it; so is, with its error, each client RPC that was aborted while no thread was copying its packets, until it ends. Every step does what its event asks for. |
| Skb.Heap.PageAlloc | homa_skb.c:242-307 | The page comes from the first source that has one: the old page if no fragment is on it, stash, pool, system; references stay exact and no contents change. |
| Skb.Heap.ExtendFrags | homa_skb.c:186-233 | The new bytes lie where no fragment is: at the end of the last fragment if that can grow, otherwise in a new, aligned one, on the core's page as long as that has room; as many as the page has. |
| Skb.Heap.AppendToFrag | homa_skb.c:319-336 | The packet has the data at its end, and no byte visible in another packet changes. |
| Skb.Heap.AppendFromSkb | homa_skb.c:380-428 | On success the destination holds its old contents followed by the requested slice of the source, clipped to its end; it fails only if some of that could not be appended; all other packets read the same. |
| Skb.Heap.ShareFrags | homa_skb.c:401-427 | Sharing fragments has the effect of copying the slice. |
| Skb.Heap.Get | homa_skb.c:540-576 | Returns exactly the requested slice of the contents, clipped to its end. |
| Skb.Heap.FreeTx | homa_skb.c:448-497 | Pages go to a pool only without fragments on them; references stay exact and other packets read the same. |
| Skb.Heap.StashPages | homa_skb.c:154-174 | Pages move from pool to stash, as many as the message's bytes need or there are; each is held in one place. |
| Skb.FilledContents | homa_skb.c:186-233 | Filling freshly allocated bytes changes what no other fragment shows. |
| Timetrace.Trace.Record | timetrace.c:247-274 | The ring holds the last events recorded; nothing is recorded while frozen. |
| Timetrace.Trace.FindOldest | timetrace.c:289-320 | Computes the earliest time from which all rings are complete, and the first event of each ring not before it. |
| Timetrace.Trace.FindEarliest | timetrace.c:703-716 | Finds the first core whose next event is among the earliest, or that none is left. |
| Timetrace.Trace.Print | timetrace.c:673-733 | The output is sorted by time, and for each core is exactly its record from the start time on, in order. |
| Timetrace.PrintedIs | timetrace.c:275-320 | No event before the start time is printed, none twice, and every recorded event later than the start time is, although rings overwrite. |
| Timetrace.StartTimeIs | timetrace.c:275-320 | The start time is 0 or the time of the oldest event that some full ring has for printing. |
| Timetrace.Trace.Release | timetrace.c:505-543 | The last reader resets all rings to empty and ends a freeze, and only that one. |

## Left out

- Kernel glue: sysctl, /proc, ioctl, poll, module load, routing, metrics, printing, and choosing cores for incoming packets.
- The pacer and the list of throttled messages; whether the network card has room is a parameter.
- Priorities of DATA packets, CUTOFFS packets, and the fifo share of grants.
- Sockets that share a port, and peel-off of sockets.
- Waits for a particular RPC: only waits for any request or response are modelled.
- `homa_rpc_reap` and the exact count of dead buffers.
- `homa::receiver::copy_out`: only `contiguous` and `get` are modelled.
- Faults when copying to or from user space, and failed packet allocation while a message is cut or retransmitted; transmission that overlaps the cutting.
- Races inside one call of the grant scheduler or the pool, where locks are dropped or reference counts change without a lock.
- Grant.Homa.RemoveRpc: does not keep the order of peers in general; it states exactly when the code does.
- Outgoing.MessageOutFill: requires a positive number of message bytes per packet, that is, an MTU above the headers.
- Resend.ResendData: the header field with the granted bytes is not modelled; in Transfer.Link.Run it may have any value.
- Sender.MessageOut.XmitData: the RPC lock is not dropped within the call; other steps come between calls.
- Timer.Rpc.CheckRpc: tick counters do not wrap around.
- Transfer.Link.Run: RESEND and UNKNOWN packets may arrive at any time with any range, and the first packet may carry any number of unscheduled bytes; which bytes are granted when is left to the grant scheduler, except that GRANT offsets increase within the length.
- Pool.Pool.Release: for buffers that are not in use, or named twice, only the result is stated.
- Acks.World.Run: server ports are left out, so an ack may reach the RPC of that name on any socket of the server; server timers may fire at any time.
- Handoff.Socket.Run: whether a copy ends with an error is a parameter, dead RPCs are kept, and sockets are not shut down.
- Skb.Heap.ExtendFrags: the number of fragments is not bounded, as in the code.
