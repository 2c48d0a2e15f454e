/** A message on its way between two nodes, over a network that may lose,
    duplicate and reorder packets. */
module Transfer {
  import opened Wire
  import opened GapList
  import opened Buffers
  import opened Outgoing
  import opened Resend
  import opened Sender
  import opened Timer
  import M = MessageIn

  // ----- Whole segments -----

  /** Each segment has been received completely or not at all. */
  ghost predicate WholeSegments(received: set<int>, segments: seq<DataPkt>) {
    forall p :: p in segments ==> AllIn(p, received) || NoneIn(p, received)
  }

  ghost predicate AllIn(p: DataPkt, received: set<int>) {
    forall i :: Covers(p, i) ==> i in received
  }

  ghost predicate NoneIn(p: DataPkt, received: set<int>) {
    forall i :: Covers(p, i) ==> i !in received
  }

  /** Receiving a segment keeps this, since segments do not overlap. */
  lemma WholeSegmentsKept(s: MessageOut, received: set<int>, p: DataPkt)
    requires s.Valid() && p in s.Whole() && WholeSegments(received, s.Whole())
    ensures WholeSegments(received + Range(p.offset, p.offset + |p.data|), s.Whole())
  {
    hide AllSegments, TilesTo;
    var received' := received + Range(p.offset, p.offset + |p.data|);
    forall q | q in s.Whole() ensures AllIn(q, received') || NoneIn(q, received') {
      if NoneIn(q, received) && !NoneIn(q, received') {
        var i :| Covers(q, i) && i in received';
        AllDisjoint(s.msg, s.skbs, s.seg, s.hijack, p, q, i);
      }
    }
  }

  /** The receiver holds what it has received of the sender's message. */
  ghost predicate InSync(s: MessageOut, m: M.MessageIn)
    reads s, m, m.region
    ensures InSync(s, m) ==> s.Valid()
  {
    s.Valid() && m.Holds(s.msg) && WholeSegments(m.Received(), s.Whole())
  }

  // ----- Repair -----

  /** A segment arrives. Unless memory for a gap is lacking, all of its bytes
      have been received afterwards. */
  method Arrive(s: MessageOut, m: M.MessageIn, p: DataPkt, gapAlloc: bool)
    requires InSync(s, m) && p in s.Whole()
    modifies m`recvEnd, m`gaps, m`bytesRemaining, m`packets
    ensures InSync(s, m)
    ensures old(m.Received()) <= m.Received()
    ensures gapAlloc ==> AllIn(p, m.Received())
    ensures forall q :: AllIn(q, old(m.Received())) ==> AllIn(q, m.Received())
  {
    hide AllSegments, Geometry, WholeSegments, AllIn, ReceivedSet, Range, GapsValid, GapsApart, BuffersOk;
    SegmentIsAuthentic(s, p);
    ghost var before := m.Received();
    var kept := m.Deliver(p, gapAlloc, s.msg);
    Absorbed(s, before, p, kept, gapAlloc);
    assert m.Received() == before + if kept then Range(p.offset, p.offset + |p.data|) else {};
    assert !kept ==> m.Received() == before;
  }

  lemma SegmentIsAuthentic(s: MessageOut, p: DataPkt)
    requires s.Valid() && p in s.Whole()
    ensures Authentic(p, s.msg)
  {
    AllAuthentic(s.msg, s.skbs, s.seg, s.hijack, p);
  }

  lemma Absorbed(s: MessageOut, before: set<int>, p: DataPkt, kept: bool, gapAlloc: bool)
    requires s.Valid() && p in s.Whole() && WholeSegments(before, s.Whole())
    requires gapAlloc ==> (kept <==> Range(p.offset, p.offset + |p.data|) !! before)
    ensures var after := before + if kept then Range(p.offset, p.offset + |p.data|) else {};
      && before <= after && WholeSegments(after, s.Whole())
      && (gapAlloc ==> AllIn(p, after)) && forall q :: AllIn(q, before) ==> AllIn(q, after)
  {
    hide AllSegments, TilesTo;
    if kept {
      WholeSegmentsKept(s, before, p);
    } else {
      assert before + {} == before;
      if gapAlloc {
        var i :| i in Range(p.offset, p.offset + |p.data|) && i in before;
        assert Covers(p, i);
      }
    }
  }

  datatype Arrival = Arrival(p: DataPkt, gapAlloc: bool)

  /** The packet arrives at some point when there is memory for it. */
  ghost predicate Arrives(arrived: seq<Arrival>, p: DataPkt) {
    exists k :: 0 <= k < |arrived| && arrived[k] == Arrival(p, true)
  }

  /** Every packet that the sender retransmits on the requests arrives. */
  ghost predicate Answered(sent: seq<Control>, segments: seq<DataPkt>, arrived: seq<Arrival>) {
    forall c, p :: c in sent && c.Resend? && c.length > 0 && p in Meeting(segments, c.offset, c.offset + c.length) ==>
      Arrives(arrived, p)
  }

  /** If every retransmission that answers the requests arrives, then all the
      bytes that were asked for are received. */
  lemma Repaired(s: MessageOut, sent: seq<Control>, arrived: seq<Arrival>, before: set<int>, after: set<int>, target: int)
    requires s.Valid() && target <= s.length && before <= after && Answered(sent, s.Whole(), arrived)
    requires forall i :: Asked(sent, i) <==> 0 <= i < target && i !in before
    requires forall p :: Arrives(arrived, p) ==> AllIn(p, after)
    ensures forall i :: 0 <= i < target ==> i in after
  {
    hide Geometry, AllSegments, Asked, Answered;
    forall i | 0 <= i < target ensures i in after {
      if i !in before {
        MissingArrives(s, sent, arrived, i);
      }
    }
  }

  method DeliverAll(s: MessageOut, m: M.MessageIn, arrived: seq<Arrival>)
    requires InSync(s, m)
    requires forall k :: 0 <= k < |arrived| ==> arrived[k].p in s.Whole()
    modifies m`recvEnd, m`gaps, m`bytesRemaining, m`packets
    ensures InSync(s, m)
    ensures old(m.Received()) <= m.Received()
    ensures forall p :: Arrives(arrived, p) ==> AllIn(p, m.Received())
  {
    hide AllSegments, Geometry, InSync, AllIn, ReceivedSet;
    for n := 0 to |arrived|
      invariant InSync(s, m)
      invariant old(m.Received()) <= m.Received()
      invariant forall k :: 0 <= k < n && arrived[k].gapAlloc ==> AllIn(arrived[k].p, m.Received())
    {
      Arrive(s, m, arrived[n].p, arrived[n].gapAlloc);
    }
  }

  /** The segment with a byte that is asked for arrives. */
  lemma MissingArrives(s: MessageOut, sent: seq<Control>, arrived: seq<Arrival>, i: nat)
    requires s.Valid() && i < s.length && Asked(sent, i)
    requires Answered(sent, s.Whole(), arrived)
    ensures exists p :: Arrives(arrived, p) && Covers(p, i)
  {
    hide AllSegments, TilesTo, Meeting;
    var k :| 0 <= k < |sent| && AsksFor(sent[k], i);
    var p := AllCovered(s.msg, s.skbs, s.seg, s.hijack, i);
    MeetingMembers(s.Whole(), sent[k].offset, sent[k].offset + sent[k].length, p);
    assert Arrives(arrived, p);
  }

  /** A sender that answers RESEND packets with data rather than with BUSY, or
      not at all. */
  ghost predicate Answers(s: MessageOut)
    reads s
  {
    (s.isClient || s.state.Outgoing?) && s.nextXmitOffset >= s.granted
  }

  /** `p` has to be sent again on one of the first `n` requests. */
  ghost predicate Requested(sent: seq<Control>, n: nat, segments: seq<DataPkt>, p: DataPkt)
    requires n <= |sent|
  {
    exists k :: 0 <= k < n && sent[k].Resend? && sent[k].length > 0 &&
      p in Meeting(segments, sent[k].offset, sent[k].offset + sent[k].length)
  }

  /** The sender gets all the requests. */
  method AnswerAll(s: MessageOut, sent: seq<Control>) returns (replies: seq<DataPkt>)
    requires s.Valid()
    ensures forall p :: p in replies <==> Answers(s) && Requested(sent, |sent|, s.Whole(), p)
  {
    hide Geometry, AllSegments, Meeting, DecodeAll;
    replies := [];
    for n := 0 to |sent|
      invariant forall p :: p in replies <==> Answers(s) && Requested(sent, n, s.Whole(), p)
    {
      if sent[n].Resend? {
        var busy, again := s.ResendPkt(sent[n].offset, sent[n].length);
        NothingDecoded();
        replies := replies + DecodeAll(again);
      }
    }
  }

  /** All of the segments among `ps`, and nothing but segments, arrive. */
  ghost predicate Delivers(arrived: seq<Arrival>, ps: seq<DataPkt>, segments: seq<DataPkt>) {
    && (forall p :: p in ps && p in segments ==> Arrives(arrived, p))
    && (forall k :: 0 <= k < |arrived| ==> arrived[k].p in segments)
  }

  lemma AllAnswered(s: MessageOut, sent: seq<Control>, replies: seq<DataPkt>, arrived: seq<Arrival>)
    requires s.Valid() && Answers(s) && Delivers(arrived, replies, s.Whole())
    requires forall p :: p in replies <==> Requested(sent, |sent|, s.Whole(), p)
    ensures Answered(sent, s.Whole(), arrived)
  {
    hide Geometry, AllSegments, Meeting;
    forall c, p | c in sent && c.Resend? && c.length > 0 && p in Meeting(s.Whole(), c.offset, c.offset + c.length)
      ensures Arrives(arrived, p)
    {
      var k :| 0 <= k < |sent| && sent[k] == c;
      assert Requested(sent, |sent|, s.Whole(), p);
      MeetingMembers(s.Whole(), c.offset, c.offset + c.length, p);
    }
  }

  lemma NotRequested(sent: seq<Control>, segments: seq<DataPkt>)
    ensures (forall i :: !Asked(sent, i)) ==> forall p :: !Requested(sent, |sent|, segments, p)
  {
    hide Meeting;
    forall p | Requested(sent, |sent|, segments, p) ensures exists i :: Asked(sent, i) {
      var k :| 0 <= k < |sent| && sent[k].Resend? && sent[k].length > 0 &&
               p in Meeting(segments, sent[k].offset, sent[k].offset + sent[k].length);
      assert AsksFor(sent[k], sent[k].offset);
      assert Asked(sent, sent[k].offset);
    }
  }

  lemma InSyncFacts(s: MessageOut, m: M.MessageIn)
    requires InSync(s, m)
    ensures s.Valid() && m.Valid() && m.recvEnd <= s.length
  {
  }

  /** A check of the receiver, the sender's answers to its requests, and their
      way through a network that delivers them in any order, any number of
      times and among other segments. All that was missing is received if the
      check was due, fewer bytes had come than were granted, there are
      buffers for them, and the sender answers; otherwise nothing is sent
      again. */
  method Repair(r: Rpc, s: MessageOut, p: Params, timerTicks: nat, network: seq<DataPkt> -> seq<Arrival>)
      returns (replies: seq<DataPkt>)
    requires r.state.Incoming? && r.msgin != null && InSync(s, r.msgin) && r.granted <= s.length
    requires 0 < p.resendInterval && forall ps :: Delivers(network(ps), ps, s.Whole())
    modifies r`silentTicks, r`doneTimerTicks
    modifies r.msgin`recvEnd, r.msgin`gaps, r.msgin`bytesRemaining, r.msgin`packets
    ensures InSync(s, r.msgin)
    ensures old(r.Due(p) && !r.Satisfied()) && Answers(s) ==>
      forall i :: 0 <= i < Max(old(r.msgin.recvEnd), r.granted) ==> i in r.msgin.Received()
    ensures !(old(r.Due(p) && !r.Satisfied()) && Answers(s)) ==> replies == []
  {
    hide Geometry, AllSegments, Meeting, DecodeAll, Asked, InSync, ReceivedSet, Answered, Requested, Arrives, AllIn;
    InSyncFacts(s, r.msgin);
    ghost var asks, before, target := r.Due(p) && !r.Satisfied(), r.msgin.Received(), Max(r.msgin.recvEnd, r.granted);
    var sent := r.CheckRpc(p, timerTicks);
    replies := AnswerAll(s, sent);
    NotRequested(sent, s.Whole());
    assert replies != [] ==> replies[0] in replies;
    var arrived := network(replies);
    assert Delivers(arrived, replies, s.Whole());
    DeliverAll(s, r.msgin, arrived);
    if asks && Answers(s) {
      AllAnswered(s, sent, replies, arrived);
      Repaired(s, sent, arrived, before, r.msgin.Received(), target);
    }
  }

  // ----- Runs -----

  /** What may happen to a message. Packets arrive only if they were sent, but
      any number of times and in any order; RESEND and UNKNOWN packets may
      arrive at any time. */
  datatype Event =
    | Xmit(force: bool, nicReady: nat -> bool, throttleMinBytes: nat)
    | GrantSent(offset: nat)
    | CatchUp
    | GrantArrives(offset: nat, resendAll: bool, nicReady: nat -> bool, throttleMinBytes: nat)
    | ResendArrives(start: int, length: int)
    | UnknownArrives
    | DataArrives(p: DataPkt, incoming: nat, gapAlloc: bool, buffers: bool)
    | BuffersAllocated
    | TakeBatch
    | CopyNext
    | OtherWrite(addr: nat, value: Byte)

  /** A sender, a receiver and the network between them, at one point. */
  datatype State = State(
    rpcState: RpcState, sGranted: nat, nextXmit: nat, nextXmitOffset: nat,
    net: set<DataPkt>, grants: seq<nat>,
    started: bool, hasBuffers: bool, granted: nat,
    received: set<int>, remaining: int, skbs: seq<DataPkt>, packets: seq<DataPkt>, region: seq<Byte>)

  class Link {
    const s: MessageOut
    const m: M.MessageIn
    var started: bool            // the receiver knows about the message
    var hasBuffers: bool
    var granted: nat             // by the receiver
    var grants: seq<nat>         // offsets of all GRANT packets, in order
    var net: set<DataPkt>        // all DATA packets ever sent

    ghost predicate Inv()
      reads this, s, m, m.region
    {
      && InSync(s, m)
      && NetOk(s, net, s.nextXmitOffset)
      && Increasing(grants) && (forall k :: 0 <= k < |grants| ==> grants[k] <= granted)
      && granted <= m.length && s.granted <= Max(s.unscheduled, granted)
      && (!started ==> grants == [] && granted == 0) && (grants == [] ==> !s.grantSeen)
    }

    ghost function View(): State
      reads this, s, m, m.region
    {
      State(s.state, s.granted, s.nextXmit, s.nextXmitOffset, net, grants, started, hasBuffers, granted,
            m.Received(), m.bytesRemaining, m.skbs, m.packets, m.region[..])
    }

    /** Transmission has not stopped before the granted bytes, except at a
        packet that the network card has no room for. */
    ghost predicate SentAsGranted(v: State, nicReady: nat -> bool) {
      v.nextXmitOffset < v.sGranted ==> v.nextXmit < |s.skbs| && !nicReady(v.nextXmit)
    }

    /** What an event sends, grants or delivers. */
    ghost predicate Does(v: State, e: Event, v': State)
      requires IsCut(s)
    {
      match e
      case Xmit(force, nicReady, _) =>
        && v'.net == v.net + s.Part(v.nextXmitOffset, v'.nextXmitOffset) && SentAsGranted(v', nicReady)
        && (force && v'.nextXmitOffset < v'.sGranted ==> v'.nextXmit > v.nextXmit)
      case GrantSent(offset) =>
        v.started && v.granted < offset <= m.length ==> v'.granted == offset && v'.grants == v.grants + [offset]
      case CatchUp =>
        v.started ==> v'.granted == Max(v.granted, m.length - v.remaining)
      case GrantArrives(offset, resendAll, nicReady, _) =>
        offset in v.grants ==>
          if v.rpcState.Outgoing? then
            && v'.sGranted == Max(v.sGranted, offset) && SentAsGranted(v', nicReady)
            && v'.net == v.net + s.Part(if resendAll then 0 else v.nextXmitOffset, v'.nextXmitOffset)
          else v'.sGranted == v.sGranted && v'.net == v.net
      case ResendArrives(start, length) =>
        v'.net == v.net +
          if (s.isClient || v.rpcState.Outgoing?) && v.nextXmitOffset >= v.sGranted && length > 0
          then MeetingSet(s, start, start + length) else {}
      case UnknownArrives =>
        && v'.rpcState == (if s.isClient then v.rpcState else Dead)
        && v'.net == v.net + if s.isClient && v.rpcState.Outgoing? then s.Part(0, v.nextXmitOffset) else {}
      case DataArrives(p, _, gapAlloc, buffers) =>
        p in v.net ==>
          && v'.started && v'.hasBuffers == (if v.started then v.hasBuffers else buffers)
          && (v'.hasBuffers && gapAlloc ==> AllIn(p, v'.received))
          && (!v'.hasBuffers ==> v'.received == v.received && v'.packets == v.packets)
      case BuffersAllocated =>
        v.started ==> v'.hasBuffers
      case TakeBatch =>
        v.skbs == [] && v.packets != [] ==> v'.skbs != [] && v'.skbs + v'.packets == v.packets
      case CopyNext =>
        v.skbs != [] ==> v'.skbs == v.skbs[1..]
      case OtherWrite(addr, value) =>
        addr < |v.region| && !IsPlace(m.offsets, m.length, addr) ==> v'.region == v.region[addr := value]
    }

    /** Once nothing is missing or pending, every byte is in its place; and the
        sender has not been granted more than the receiver granted. */
    ghost predicate InPlace(v: State)
      requires BuffersOk(m.offsets, m.length, m.region.Length)
    {
      && v.sGranted <= Max(s.unscheduled, v.granted)
      && (v.remaining == 0 && v.skbs == [] && v.packets == [] ==>
            forall i :: 0 <= i < m.length ==>
              m.length == |s.msg| && m.Place(i) < |v.region| && v.region[m.Place(i)] == s.msg[i])
    }

    constructor (s: MessageOut, m: M.MessageIn)
      requires s.Valid() && s.nextXmit == 0 && !s.grantSeen
      requires m.Valid() && GapsApart(m.gaps, m.recvEnd) && m.Received() == {} && m.Pending() == []
      requires m.length == |s.msg| && BuffersOk(m.offsets, m.length, m.region.Length)
      ensures Inv() && this.s == s && this.m == m && net == {} && grants == [] && granted == 0 && !started && !hasBuffers
    {
      this.s, this.m, started, hasBuffers, granted, grants, net := s, m, false, false, 0, [], {};
    }

    /** The segments of the packets go into the network. */
    method Send(out: seq<Skb>, ghost from: nat, ghost to: nat)
      requires s.Valid() && from <= to <= |s.skbs| && out == s.skbs[from..to]
      modifies this`net
      ensures net == old(net) + s.Part(s.StartOf(from), s.StartOf(to))
    {
      hide Geometry, AllSegments, Segmented, DecodeAll, SegmentsOf;
      s.SentSegments(from, to);
      SegmentsOfNone(out);
      for k := 0 to |out|
        invariant net == old(net) + SegmentsOf(out[..k])
      {
        SegmentsOfMore(out, k);
        var ws := DecodeAll(Segmented(out[k]));
        net := net + set p | p in ws;
      }
      assert out[..|out|] == out;
    }

    /** Retransmissions go into the network. */
    method SendAgain(again: seq<WirePkt>)
      modifies this`net
      ensures net == old(net) + SetOf(DecodeAll(again))
    {
      var ps := DecodeAll(again);
      net := net + set p | p in ps;
    }

    /** A GRANT that was sent arrives: all that is granted goes out, up to a
        packet that the network card has no room for. */
    method GrantArrival(offset: nat, resendAll: bool, nicReady: nat -> bool, throttleMinBytes: nat)
      requires Inv() && offset in grants
      modifies this`net, s`granted, s`nextXmit, s`nextXmitOffset, s`grantSeen
      ensures Inv()
      ensures s.granted == if s.state.Outgoing? then Max(old(s.granted), offset) else old(s.granted)
      ensures s.state.Outgoing? && s.nextXmitOffset < s.granted ==>
        s.nextXmit < |s.skbs| && !nicReady(s.nextXmit) && s.length - s.nextXmitOffset >= throttleMinBytes
      ensures net == old(net) + s.Part(if s.state.Outgoing? && resendAll then 0 else old(s.nextXmitOffset), s.nextXmitOffset)
      ensures !s.state.Outgoing? ==> net == old(net)
    {
      hide Geometry, AllSegments, Meeting, DecodeAll, WholeSegments, M.MessageIn.Holds, MessageOut.Part, NetOk, SetOf;
      ghost var from, sent, before := s.nextXmit, s.nextXmitOffset, net;
      AllAgain(s);
      NoneAgain();
      SameLength(s, m);
      var again, out := s.GrantPkt(offset, resendAll, nicReady, throttleMinBytes);
      SendAgain(again);
      Send(out, from, s.nextXmit);
      StartsInOrder(s, from, s.nextXmit);
      NetGrows(s, before, sent, s.nextXmitOffset);
    }

    method DataArrival(p: DataPkt, incoming: nat, gapAlloc: bool, buffers: bool)
      requires Inv() && p in net
      modifies this`started, this`hasBuffers, this`granted, m`recvEnd, m`gaps, m`bytesRemaining, m`packets
      ensures Inv() && started && hasBuffers == if old(started) then old(hasBuffers) else buffers
      ensures hasBuffers && gapAlloc ==> AllIn(p, m.Received())
      ensures !hasBuffers ==> m.Received() == old(m.Received()) && m.packets == old(m.packets)
    {
      hide Geometry, AllSegments, InSync;
      if !started {
        MessageInInit(incoming, buffers);
      }
      if hasBuffers {
        Arrive(s, m, p, gapAlloc);
      }
    }

    /** The receiver learns about the message; without buffers, nothing is
        granted and packets are dropped. */
    method MessageInInit(incoming: nat, buffers: bool)
      requires Inv() && !started
      modifies this`started, this`hasBuffers, this`granted
      ensures Inv() && started && hasBuffers == buffers
      ensures granted == if !buffers then 0 else if incoming > m.length then m.length else incoming
    {
      hide InSync;
      started, hasBuffers := true, buffers;
      granted := if incoming > m.length then m.length else incoming;
      if !buffers {
        granted := 0;
      }
    }

    /** The receiver's scheduler grants more (see Grant). */
    method SendGrant(offset: nat)
      requires Inv() && started && granted < offset <= m.length
      modifies this`granted, this`grants
      ensures Inv() && granted == offset && grants == old(grants) + [offset]
    {
      hide InSync;
      granted := offset;
      grants := grants + [offset];
    }

    /** More has been received than was granted; this counts as granted, too. */
    method RaiseGranted()
      requires Inv() && started
      modifies this`granted
      ensures Inv() && granted == Max(old(granted), m.length - m.bytesRemaining)
    {
      hide Geometry, AllSegments, WholeSegments, GapsApart, BuffersOk;
      assert m.Valid();
      var received := m.length - m.bytesRemaining;
      if granted < received {
        granted := received;
      }
    }

    /** Some other message writes into its own part of the region. */
    method Write(addr: nat, value: Byte)
      requires Inv() && addr < m.region.Length && !IsPlace(m.offsets, m.length, addr)
      modifies m.region
      ensures Inv() && m.region[..] == old(m.region[..])[addr := value]
    {
      m.region[addr] := value;
    }

    /** One event, with what it sends, grants or delivers. */
    method Handle(e: Event)
      requires Inv()
      modifies this, s, m, m.region
      ensures Inv()
      ensures Does(old(View()), e, View())
    {
      hide InSync, Geometry, AllSegments, Meeting, Increasing, DecodeAll, MessageOut.Part, NetOk, MeetingSet, AllIn, ReceivedSet;
      match e {
        case Xmit(force, nicReady, throttleMinBytes) =>
          Transmit(force, nicReady, throttleMinBytes);
        case GrantSent(offset) =>
          if started && granted < offset <= m.length {
            SendGrant(offset);
          }
        case CatchUp =>
          if started {
            RaiseGranted();
          }
        case GrantArrives(offset, resendAll, nicReady, throttleMinBytes) =>
          if offset in grants {
            GrantArrival(offset, resendAll, nicReady, throttleMinBytes);
          }
        case ResendArrives(start, length) =>
          ResendArrival(start, length);
        case UnknownArrives =>
          UnknownArrival();
        case DataArrives(p, incoming, gapAlloc, buffers) =>
          if p in net {
            DataArrival(p, incoming, gapAlloc, buffers);
          }
        case BuffersAllocated =>
          hasBuffers := hasBuffers || started;
        case TakeBatch =>
          if m.skbs == [] {
            Take();
          }
        case CopyNext =>
          if m.skbs != [] {
            Copy();
          }
        case OtherWrite(addr, value) =>
          if addr < m.region.Length && !IsPlace(m.offsets, m.length, addr) {
            Write(addr, value);
          }
      }
    }

    method Transmit(force: bool, nicReady: nat -> bool, throttleMinBytes: nat)
      requires Inv()
      modifies this`net, s`nextXmit, s`nextXmitOffset
      ensures Inv() && old(s.nextXmitOffset) <= s.nextXmitOffset
      ensures s.nextXmitOffset < s.granted ==>
        s.nextXmit < |s.skbs| && !nicReady(s.nextXmit) && (force ==> s.nextXmit > old(s.nextXmit))
        && s.length - s.nextXmitOffset >= throttleMinBytes
      ensures net == old(net) + s.Part(old(s.nextXmitOffset), s.nextXmitOffset)
    {
      hide Geometry, AllSegments, WholeSegments, M.MessageIn.Holds, MessageOut.Part, NetOk;
      ghost var from, sent, before := s.nextXmit, s.nextXmitOffset, net;
      var out := s.XmitData(force, nicReady, throttleMinBytes);
      Send(out, from, s.nextXmit);
      StartsInOrder(s, from, s.nextXmit);
      NetGrows(s, before, sent, s.nextXmitOffset);
    }

    /** A RESEND is answered with the segments that meet its range, unless the
        sender is busy. */
    method ResendArrival(start: int, length: int)
      requires Inv()
      modifies this`net
      ensures Inv()
      ensures net == old(net) + if Answers(s) && length > 0 then MeetingSet(s, start, start + length) else {}
    {
      hide Geometry, AllSegments, WholeSegments, M.MessageIn.Holds, Meeting, DecodeAll, NetOk, SetOf, MeetingSet;
      var busy, again := s.ResendPkt(start, length);
      NoneAgain();
      MeetingIs(s, net, start, start + length);
      SendAgain(again);
    }

    /** An UNKNOWN makes a client send everything again that it has sent. */
    method UnknownArrival()
      requires Inv()
      modifies this`net, s`state
      ensures Inv()
      ensures s.state == if s.isClient then old(s.state) else Dead
      ensures net == old(net) + if s.isClient && s.state.Outgoing? then s.Part(0, s.nextXmitOffset) else {}
    {
      hide Geometry, AllSegments, WholeSegments, M.MessageIn.Holds, Meeting, DecodeAll, MessageOut.Part, NetOk, SetOf;
      ghost var before := net;
      AllAgain(s);
      NoneAgain();
      var again := s.UnknownPkt();
      SendAgain(again);
      NetGrows(s, before, s.nextXmitOffset, s.nextXmitOffset);
    }

    method Take()
      requires Inv() && m.skbs == []
      modifies m`packets, m`skbs
      ensures Inv() && m.Pending() == old(m.Pending()) && (old(m.packets) != [] ==> m.skbs != [])
    {
      hide Geometry, AllSegments, WholeSegments, ReceivedSet, GapsValid, GapsApart, BuffersOk;
      m.TakeBatch();
    }

    method Copy()
      requires Inv() && m.skbs != []
      modifies m`skbs, m.region
      ensures Inv() && m.skbs == old(m.skbs)[1..]
    {
      hide Geometry, AllSegments, WholeSegments, ReceivedSet, GapsValid, GapsApart, BuffersOk;
      m.CopyNext(s.msg);
    }

    /** When everything has been sent and all of it arrives, in any order, the
        message is complete. */
    method ArriveAll(arrived: seq<Arrival>)
      requires Inv() && s.nextXmitOffset == s.length
      requires forall k :: 0 <= k < |arrived| ==> arrived[k].p in net
      requires forall p :: p in net ==> Arrives(arrived, p)
      modifies m`recvEnd, m`gaps, m`bytesRemaining, m`packets
      ensures Inv() && m.bytesRemaining == 0
    {
      hide Geometry, AllSegments, InSync, AllIn, ReceivedSet, Arrives, Increasing;
      DeliverAll(s, m, arrived);
      forall i: nat | i < s.length ensures i in m.Received() {
        ByteArrives(s, net, m.Received(), i);
      }
      NothingMissing(s, m);
    }

    /** Every run. At its end, as at any point: once nothing is missing or
        pending, every byte of the message is in its place; and the sender has
        not been granted more than the receiver granted. */
    method Run(events: seq<Event>) returns (ghost trace: seq<State>)
      requires Inv()
      modifies this, s, m, m.region
      ensures Inv() && BuffersOk(m.offsets, m.length, m.region.Length)
      ensures |trace| == |events| + 1 && trace[0] == old(View()) && trace[|events|] == View()
      ensures forall k :: 0 <= k <= |events| ==> InPlace(trace[k])
      ensures forall k :: 0 <= k < |events| ==> Does(trace[k], events[k], trace[k + 1])
    {
      hide InSync, Geometry, Increasing, BuffersOk, Does, InPlace;
      InPlaceNow();
      trace := [View()];
      for n := 0 to |events|
        invariant Inv()
        invariant |trace| == n + 1 && trace[0] == old(View()) && trace[n] == View()
        invariant forall k :: 0 <= k <= n ==> InPlace(trace[k])
        invariant forall k :: 0 <= k < n ==> Does(trace[k], events[k], trace[k + 1])
      {
        Handle(events[n]);
        InPlaceNow();
        trace := trace + [View()];
      }
    }

    lemma InPlaceNow()
      requires Inv()
      ensures BuffersOk(m.offsets, m.length, m.region.Length) && InPlace(View())
    {
      hide InSync, Geometry, Increasing;
      Arrived(s, m);
    }

    /** At any point of a run: once nothing is missing or pending, the
        application reads the message that was sent, wherever it asks for it;
        and it can ask for every byte. */
    lemma EndToEnd(offset: nat, size: nat)
      requires Inv() && m.bytesRemaining == 0 && m.Pending() == [] && 0 < size
      ensures offset < m.length ==> offset / HOMA_BPAGE_SIZE < |m.offsets|
      ensures var p := Get(m.offsets, m.length, offset, size);
        && (p.At? ==>
              && offset + size <= |s.msg| && p.addr + size <= m.region.Length
              && m.region[p.addr..p.addr + size] == s.msg[offset..offset + size])
        && (p.Null? && size == 1 ==> offset >= |s.msg|)
    {
      hide Geometry, AllSegments, WholeSegments, ReceivedSet, GapsValid, GapsApart, Get, AddrOf, PagesFor, ChunkSize;
      m.Complete(s.msg);
      GetFinds(m.offsets, m.length, offset, size);
      forall i | 0 <= i < |s.msg|
        ensures AddrOf(m.offsets, i) < m.region.Length && m.region[..][AddrOf(m.offsets, i)] == s.msg[i]
      {
        assert m.Place(i) == AddrOf(m.offsets, i);
      }
      Reads(m.region[..], m.offsets, s.msg, offset, size);
    }

    /** At any point of a run: the sender never believes to have more granted
        than was granted to it, and never sends a whole packet beyond that. */
    lemma GrantsRespected()
      requires Inv()
      ensures Increasing(grants) && forall g :: g in grants ==> g <= m.length
      ensures s.granted <= Max(s.unscheduled, granted)
      ensures s.nextXmitOffset < Max(s.unscheduled, granted) + s.maxGsoData || s.nextXmitOffset == 0
      ensures grants == [] ==> s.nextXmitOffset <= s.unscheduled
    {
      hide Geometry;
      s.StopsInTime();
    }
  }

  /** A message that is about to be sent, to a receiver with buffers for it;
      nothing if its length or the GSO limit is not good. */
  method Connect(msg: seq<Byte>, unschedBytes: nat, mtu: Int31, ipHeader: Int31, devGsoSize: Int31, homaGsoSize: Int31,
                 hijack: bool, isClient: bool, offsets: seq<nat>, region: array<Byte>) returns (link: Link?)
    requires MaxSegData(mtu, ipHeader) > 0
    requires BuffersOk(offsets, |msg|, region.Length)
    ensures var gso := if devGsoSize > homaGsoSize then homaGsoSize else devGsoSize;
      link == null <==> |msg| == 0 || |msg| > HOMA_MAX_MESSAGE_LENGTH
                        || MaxGsoData(gso, ipHeader, MaxSegData(mtu, ipHeader), hijack) <= 0
    ensures link != null ==> fresh(link) && fresh(link.s) && fresh(link.m) && link.m.region == region
    ensures link != null ==> link.Inv() && link.s.msg == msg && link.net == {} && !link.started
  {
    hide BuffersOk, TilesTo, IsPacket, AllSegments, MaxGsoData;
    var r := MessageOutFill(msg, unschedBytes, mtu, ipHeader, devGsoSize, homaGsoSize, hijack);
    if !r.Packets? {
      return null;
    }
    var s := new MessageOut(r.skbs, |msg|, r.unscheduled, isClient, msg, r.maxGsoData, MaxSegData(mtu, ipHeader), hijack);
    var m := new M.MessageIn(|msg|, offsets, region);
    link := new Link(s, m);
  }

  lemma Arrived(s: MessageOut, m: M.MessageIn)
    requires InSync(s, m)
    ensures BuffersOk(m.offsets, m.length, m.region.Length) && m.length == |s.msg|
    ensures m.bytesRemaining == 0 && m.Pending() == [] ==>
      forall i :: 0 <= i < m.length ==> m.region[m.Place(i)] == s.msg[i]
  {
    hide Geometry, AllSegments, WholeSegments, ReceivedSet, GapsValid, GapsApart, BuffersOk;
    if m.bytesRemaining == 0 && m.Pending() == [] { m.Complete(s.msg); }
  }

  /** What never changes about a sender. */
  ghost predicate IsCut(s: MessageOut) {
    Geometry(s.skbs, s.msg, s.unscheduled, s.maxGsoData, s.seg, s.hijack)
  }

  ghost function SetOf(ps: seq<DataPkt>): set<DataPkt> {
    set p | p in ps
  }

  /** The segments with bytes of a range. */
  ghost function MeetingSet(s: MessageOut, start: int, end: int): set<DataPkt>
    requires IsCut(s)
  {
    set p | p in s.Whole() && Meets(p, start, end)
  }

  /** Only segments of the message have been sent, and all those that start
      below `sent`. */
  ghost predicate NetOk(s: MessageOut, net: set<DataPkt>, sent: nat)
    requires IsCut(s)
  {
    (forall p :: p in net ==> p in s.Whole()) && s.Part(0, sent) <= net
  }

  lemma ByteArrives(s: MessageOut, net: set<DataPkt>, received: set<int>, i: nat)
    requires s.Valid() && NetOk(s, net, s.length) && i < s.length
    requires forall p :: p in net ==> AllIn(p, received)
    ensures i in received
  {
    hide TilesTo, AllSegments;
    var p := AllCovered(s.msg, s.skbs, s.seg, s.hijack, i);
    AllAuthentic(s.msg, s.skbs, s.seg, s.hijack, p);
    assert p in s.Part(0, s.length);
  }

  lemma NothingMissing(s: MessageOut, m: M.MessageIn)
    requires InSync(s, m) && forall i: nat :: i < s.length ==> i in m.Received()
    ensures m.bytesRemaining == 0
  {
    assert Range(0, m.length) - m.Received() == {};
  }

  lemma NoneAgain()
    ensures DecodeAll([]) == [] && SetOf([]) == {}
  {
  }

  lemma SameLength(s: MessageOut, m: M.MessageIn)
    requires InSync(s, m)
    ensures s.length == m.length
  {
  }

  lemma AllAgain(s: MessageOut)
    requires s.Valid()
    ensures SetOf(Meeting(s.Whole(), 0, s.nextXmitOffset)) == s.Part(0, s.nextXmitOffset)
  {
    hide Geometry, AllSegments, Meeting;
    forall p ensures p in Meeting(s.Whole(), 0, s.nextXmitOffset) <==> p in s.Part(0, s.nextXmitOffset) {
      s.SentSoFar(p);
    }
  }

  lemma MeetingIs(s: MessageOut, net: set<DataPkt>, start: int, end: int)
    requires IsCut(s) && NetOk(s, net, s.nextXmitOffset)
    ensures SetOf(Meeting(s.Whole(), start, end)) == MeetingSet(s, start, end)
    ensures NetOk(s, net + MeetingSet(s, start, end), s.nextXmitOffset) && net + {} == net
  {
    hide Geometry, AllSegments, Meeting;
    forall p ensures p in Meeting(s.Whole(), start, end) <==> p in MeetingSet(s, start, end) {
      MeetingMembers(s.Whole(), start, end, p);
    }
  }

  lemma NetGrows(s: MessageOut, net: set<DataPkt>, sent: nat, sent': nat)
    requires IsCut(s) && NetOk(s, net, sent) && sent <= sent'
    ensures NetOk(s, net + s.Part(sent, sent'), sent') && NetOk(s, net + s.Part(0, sent'), sent')
    ensures net + s.Part(0, sent) + s.Part(sent, sent') == net + s.Part(0, sent')
    ensures net + {} == net && net + s.Part(sent, sent) == net
  {
    hide Geometry, AllSegments;
  }

  lemma StartsInOrder(s: MessageOut, from: nat, to: nat)
    requires s.Valid() && from <= to <= |s.skbs|
    ensures s.StartOf(from) <= s.StartOf(to)
  {
    hide Geometry, AllSegments;
    if from < to { s.BeforeStart(from, to); }
  }

  lemma SegmentsOfNone(out: seq<Skb>)
    requires Splittable(out)
    ensures SegmentsOf(out[..0]) == {}
  {
  }

  lemma SegmentsOfMore(out: seq<Skb>, k: nat)
    requires Splittable(out) && k < |out|
    ensures Splittable(out[..k]) && Splittable(out[..k + 1])
    ensures SegmentsOf(out[..k + 1]) == SegmentsOf(out[..k]) + set p | p in DecodeAll(Segmented(out[k]))
    ensures SegmentsOf(out[..k + 1]) <= SegmentsOf(out)
  {
    hide Segmented, DecodeAll;
    var a, b := out[..k], out[..k + 1];
    assert b[k] == out[k] && forall j :: 0 <= j < k ==> b[j] == a[j] == out[j];
  }

  /** If every byte is in its place, pointers lead to the message's bytes. */
  lemma Reads(region: seq<Byte>, offsets: seq<nat>, msg: seq<Byte>, offset: nat, size: nat)
    requires |offsets| == PagesFor(|msg|) && 0 < size
    requires forall i :: 0 <= i < |msg| ==> AddrOf(offsets, i) < |region| && region[AddrOf(offsets, i)] == msg[i]
    requires offset < |msg| ==> offset / HOMA_BPAGE_SIZE < |offsets|
    ensures var p := Get(offsets, |msg|, offset, size);
      p.At? ==>
        && offset + size <= |msg| && p.addr + size <= |region|
        && region[p.addr..p.addr + size] == msg[offset..offset + size]
  {
    GetFinds(offsets, |msg|, offset, size);
    var p := Get(offsets, |msg|, offset, size);
    hide Get, PagesFor, AddrOf;
    if p.At? {
      assert p.addr + (size - 1) == AddrOf(offsets, offset + size - 1) < |region|;
      var there, here := region[p.addr..p.addr + size], msg[offset..offset + size];
      forall j | 0 <= j < size ensures there[j] == here[j] {
        assert AddrOf(offsets, offset + j) == p.addr + j;
      }
    }
  }

  ghost predicate Increasing(offsets: seq<nat>) {
    forall j, k :: 0 <= j < k < |offsets| ==> offsets[j] < offsets[k]
  }
}
