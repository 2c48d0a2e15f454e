/** The sender of a message: first transmissions up to the granted bytes, and
    its reactions to GRANT, RESEND and UNKNOWN packets. */
module Sender {
  import opened Wire
  import opened Outgoing
  import opened Resend

  datatype RpcState = Outgoing | Incoming | InService | Dead

  /** Packets made for `msg`. */
  ghost predicate Geometry(skbs: seq<Skb>, msg: seq<Byte>, unscheduled: nat, maxGsoData: nat, seg: nat, hijack: bool) {
    && 0 < |msg| <= HOMA_MAX_MESSAGE_LENGTH && 0 < seg && unscheduled <= |msg|
    && TilesTo(skbs, msg, |msg|, seg, hijack)
    && forall k :: 0 <= k < |skbs| ==> WellCut(skbs[k], unscheduled, maxGsoData)
  }

  /** The packets can be split into segments. */
  ghost predicate Splittable(skbs: seq<Skb>) {
    forall k :: 0 <= k < |skbs| ==> skbs[k].gsoSegs > 1 ==> skbs[k].gsoSize > 0
  }

  /** The segments of the packets as the receiver gets them. */
  ghost function SegmentsOf(skbs: seq<Skb>): set<DataPkt>
    requires Splittable(skbs)
  {
    set k, p | 0 <= k < |skbs| && p in DecodeAll(Segmented(skbs[k])) :: p
  }

  class MessageOut {
    const skbs: seq<Skb>
    const length: nat
    const unscheduled: nat
    const isClient: bool
    ghost const msg: seq<Byte>
    ghost const maxGsoData: nat
    ghost const seg: nat
    ghost const hijack: bool
    var state: RpcState
    var granted: nat
    var nextXmit: nat            // index of the next packet to be sent
    var nextXmitOffset: nat      // its offset in the message
    ghost var grantSeen: bool    // some GRANT has raised `granted`

    /** Offset where the packet at `k` starts, or the end of the message. */
    ghost function StartOf(k: nat): nat
      requires k <= |skbs|
    {
      if k < |skbs| then skbs[k].offset else length
    }

    /** What has been sent begins below the granted bytes, packet by packet;
        without a grant it does not go beyond the unscheduled bytes. */
    ghost predicate Valid()
      reads this
    {
      && Geometry(skbs, msg, unscheduled, maxGsoData, seg, hijack) && length == |msg|
      && nextXmit <= |skbs| && nextXmitOffset == StartOf(nextXmit)
      && unscheduled <= granted <= length
      && (nextXmit > 0 ==> skbs[nextXmit - 1].offset < granted)
      && (!grantSeen ==> granted == unscheduled)
    }

    /** The segments of the whole message. */
    ghost function Whole(): seq<DataPkt>
      requires Geometry(skbs, msg, unscheduled, maxGsoData, seg, hijack)
    {
      AllSegments(msg, skbs, seg)
    }

    /** Those that start within a range. */
    ghost function Part(from: int, to: int): set<DataPkt>
      requires Geometry(skbs, msg, unscheduled, maxGsoData, seg, hijack)
    {
      set p | p in Whole() && from <= p.offset < to
    }

    constructor (skbs: seq<Skb>, length: nat, unscheduled: nat, isClient: bool,
                 ghost msg: seq<Byte>, ghost maxGsoData: nat, ghost seg: nat, ghost hijack: bool)
      requires Geometry(skbs, msg, unscheduled, maxGsoData, seg, hijack) && length == |msg|
      ensures Valid() && !grantSeen && nextXmit == 0 && state == RpcState.Outgoing
      ensures this.skbs == skbs && this.msg == msg && this.unscheduled == unscheduled
    {
      this.skbs, this.length, this.unscheduled, this.isClient := skbs, length, unscheduled, isClient;
      this.msg, this.maxGsoData, this.seg, this.hijack := msg, maxGsoData, seg, hijack;
      state, granted, nextXmit, nextXmitOffset, grantSeen := RpcState.Outgoing, unscheduled, 0, 0, false;
    }

    lemma FirstPacket()
      requires Geometry(skbs, msg, unscheduled, maxGsoData, seg, hijack)
      ensures StartOf(0) == 0
    {
      hide IsPacket;
    }

    lemma NextPacket(k: nat)
      requires Geometry(skbs, msg, unscheduled, maxGsoData, seg, hijack) && length == |msg| && k < |skbs|
      ensures StartOf(k) == skbs[k].offset && StartOf(k + 1) == skbs[k].offset + skbs[k].dataBytes <= length
      ensures WellCut(skbs[k], unscheduled, maxGsoData)
    {
      hide IsPacket;
    }

    /** First transmissions stop less than one GSO packet past the granted
        bytes, and at the unscheduled bytes if there has been no grant. */
    lemma StopsInTime()
      requires Valid()
      ensures nextXmitOffset < granted + maxGsoData || nextXmitOffset == 0
      ensures !grantSeen ==> nextXmitOffset <= unscheduled
    {
      hide Geometry;
      FirstPacket();
      if nextXmit > 0 { NextPacket(nextXmit - 1); }
    }

    /** The network card has room for the packet, or not many bytes are left. */
    ghost predicate Allowed(k: nat, nicReady: nat -> bool, throttleMinBytes: nat) {
      k < |skbs| && (nicReady(k) || length - skbs[k].offset < throttleMinBytes)
    }

    /** Sends packets until the granted bytes are used up or the queue of the
        network card is too long: `nicReady(k)` tells whether there is room
        for the packet at `k`. */
    method XmitData(force: bool, nicReady: nat -> bool, throttleMinBytes: nat) returns (out: seq<Skb>)
      requires Valid()
      modifies this`nextXmit, this`nextXmitOffset
      ensures Valid()
      ensures old(nextXmit) <= nextXmit && out == skbs[old(nextXmit)..nextXmit]
      // It only stops early at a packet that the network card has no room for.
      ensures nextXmitOffset < granted ==>
        nextXmit < |skbs| && !nicReady(nextXmit) && (force ==> nextXmit > old(nextXmit))
        && length - nextXmitOffset >= throttleMinBytes
      // It waits for the network card, except with the last bytes or, if it is
      // forced to, with the first packet.
      ensures forall k :: old(nextXmit) <= k < nextXmit ==>
        Allowed(k, nicReady, throttleMinBytes) || (force && k == old(nextXmit))
      // Before any grant, exactly the unscheduled bytes are sent.
      ensures !grantSeen ==> nextXmitOffset <= unscheduled
      ensures !grantSeen && (forall k :: nicReady(k)) ==> nextXmitOffset == unscheduled
    {
      hide Geometry;
      out := [];
      var forced := force;
      while nextXmit < |skbs|
        invariant Valid()
        invariant old(nextXmit) <= nextXmit && out == skbs[old(nextXmit)..nextXmit]
        invariant forced <==> force && nextXmit == old(nextXmit)
        invariant forall k :: old(nextXmit) <= k < nextXmit ==>
          Allowed(k, nicReady, throttleMinBytes) || (force && k == old(nextXmit))
        decreases |skbs| - nextXmit
      {
        var skb := skbs[nextXmit];
        NextPacket(nextXmit);
        if nextXmitOffset >= granted {
          break;
        }
        if length - nextXmitOffset >= throttleMinBytes {
          if !forced && !nicReady(nextXmit) {
            break;
          }
        }
        nextXmit := nextXmit + 1;
        nextXmitOffset := nextXmitOffset + skb.dataBytes;
        out := out + [skb];
        forced := false;
      }
      StopsInTime();
    }

    /** A GRANT packet. */
    method GrantPkt(offset: nat, resendAll: bool, nicReady: nat -> bool, throttleMinBytes: nat)
      returns (again: seq<WirePkt>, out: seq<Skb>)
      requires Valid()
      modifies this`granted, this`nextXmit, this`nextXmitOffset, this`grantSeen
      ensures Valid()
      ensures state.Outgoing? && offset > old(granted) ==> granted == if offset > length then length else offset
      ensures !(state.Outgoing? && offset > old(granted)) ==> granted == old(granted) && grantSeen == old(grantSeen)
      ensures old(nextXmit) <= nextXmit && out == skbs[old(nextXmit)..nextXmit]
      ensures !state.Outgoing? ==> nextXmit == old(nextXmit)
      // All that is granted is sent, up to a packet that the network card has
      // no room for.
      ensures state.Outgoing? && nextXmitOffset < granted ==>
        nextXmit < |skbs| && !nicReady(nextXmit) && length - nextXmitOffset >= throttleMinBytes
      ensures forall k :: old(nextXmit) <= k < nextXmit ==> Allowed(k, nicReady, throttleMinBytes)
      ensures DecodeAll(again) ==
        if state.Outgoing? && resendAll then Meeting(Whole(), 0, old(nextXmitOffset)) else []
    {
      hide IsPacket, TilesTo, Meeting;
      again, out := [], [];
      if state.Outgoing? {
        if resendAll {
          again := ResendSent();
        }
        if offset > granted {
          granted := offset;
          grantSeen := true;
          if offset > length {
            granted := length;
          }
        }
        out := XmitData(false, nicReady, throttleMinBytes);
      }
    }

    /** Sends everything again that has been sent so far. */
    method ResendSent() returns (again: seq<WirePkt>)
      requires Valid()
      ensures DecodeAll(again) == Meeting(Whole(), 0, nextXmitOffset)
    {
      hide IsPacket, TilesTo;
      again := ResendData(skbs, 0, nextXmitOffset, msg, seg, hijack);
      if nextXmitOffset == 0 {
        forall p | p in Whole() ensures !Meets(p, 0, 0) {
          AllAuthentic(msg, skbs, seg, hijack, p);
        }
        MeetingNone(Whole(), 0, 0);
      }
    }

    /** A RESEND packet for an RPC that is known. */
    method ResendPkt(offset: int, length: int) returns (busy: bool, again: seq<WirePkt>)
      requires Valid()
      ensures busy <==> (!isClient && !state.Outgoing?) || nextXmitOffset < granted || length == 0
      ensures !busy && length > 0 ==> DecodeAll(again) == Meeting(Whole(), offset, offset + length)
      ensures busy || length <= 0 ==> again == []
    {
      busy, again := false, [];
      if !isClient && !state.Outgoing? {
        return true, [];
      }
      if nextXmitOffset < granted {
        busy := true;
      } else {
        if length == 0 {
          busy := true;
        }
        again := ResendData(skbs, offset, offset + length, msg, seg, hijack);
      }
    }

    /** An UNKNOWN packet: a client that still waits for its response sends
        everything again; a server frees the RPC. */
    method UnknownPkt() returns (again: seq<WirePkt>)
      requires Valid()
      modifies this`state
      ensures Valid()
      ensures state == if isClient then old(state) else Dead
      ensures DecodeAll(again) ==
        if isClient && state.Outgoing? then Meeting(Whole(), 0, nextXmitOffset) else []
    {
      again := [];
      if isClient {
        if state.Outgoing? {
          again := ResendSent();
        }
      } else {
        state := Dead;
      }
    }

    /** What is sent are the segments of the message from where the packets
        start to where they end. */
    lemma SentSegments(from: nat, to: nat)
      requires Valid() && from <= to <= |skbs|
      ensures Splittable(skbs[from..to])
      ensures SegmentsOf(skbs[from..to]) == Part(StartOf(from), StartOf(to))
    {
      hide IsPacket, Segmented, DecodeAll, TilesTo, AllSegments;
      var out := skbs[from..to];
      forall k | 0 <= k < |out| ensures out[k].gsoSegs > 1 ==> out[k].gsoSize > 0 {
        assert out[k] == skbs[from + k];
        PacketSplits(from + k);
      }
      forall p | p in SegmentsOf(out) ensures p in Part(StartOf(from), StartOf(to)) {
        var k :| 0 <= k < |out| && p in DecodeAll(Segmented(out[k]));
        assert out[k] == skbs[from + k];
        PacketSplits(from + k);
        SegmentPlace(from + k, p, from, to);
      }
      forall p | p in Part(StartOf(from), StartOf(to)) ensures p in SegmentsOf(out) {
        PacketsWithin();
        var k := SegmentOfPacket(msg, skbs, seg, p);
        SegmentPlace(k, p, from, to);
        assert out[k - from] == skbs[k];
        PacketSplits(k);
      }
    }

    lemma PacketsWithin()
      requires Valid()
      ensures forall j :: 0 <= j < |skbs| ==> skbs[j].offset + skbs[j].dataBytes <= |msg|
    {
      hide IsPacket;
    }

    lemma PacketSplits(k: nat)
      requires Valid() && k < |skbs|
      ensures skbs[k].gsoSegs > 1 ==> skbs[k].gsoSize > 0
      ensures skbs[k].offset + skbs[k].dataBytes <= |msg|
      ensures DecodeAll(Segmented(skbs[k])) == Segments(msg, skbs[k].offset, skbs[k].dataBytes, seg)
    {
      hide IsPacket, Segmented, DecodeAll, AllSegments;
      GsoSizePositive(skbs[k], msg, seg, hijack);
      SegmentationRoundTrip(skbs[k], msg, skbs[k].offset, skbs[k].dataBytes, seg, hijack);
    }

    /** A segment starts in a range of packets exactly if its packet is one of
        them. */
    lemma SegmentPlace(k: nat, p: DataPkt, from: nat, to: nat)
      requires Valid() && k < |skbs| && from <= to <= |skbs|
      requires skbs[k].offset + skbs[k].dataBytes <= |msg| && p in Segments(msg, skbs[k].offset, skbs[k].dataBytes, seg)
      ensures p in Whole() && (from <= k < to <==> StartOf(from) <= p.offset < StartOf(to))
    {
      hide IsPacket, Segmented, DecodeAll, AllSegments;
      PacketsWithin();
      PacketSegments(msg, skbs, seg, k, p);
      SegmentsAuthentic(msg, skbs[k].offset, skbs[k].dataBytes, seg);
      BeforeStart(k, from);
      BeforeStart(k, to);
    }

    lemma BeforeStart(k: nat, n: nat)
      requires Valid() && k < |skbs| && n <= |skbs|
      ensures if k < n then skbs[k].offset + skbs[k].dataBytes <= StartOf(n) else StartOf(n) <= skbs[k].offset
    {
      hide IsPacket;
      if k < n < |skbs| {
        PacketsInOrder(skbs, msg, seg, hijack, k, n);
      } else if n < k {
        PacketsInOrder(skbs, msg, seg, hijack, n, k);
      }
    }

    /** Sending everything again means all segments sent so far. */
    lemma SentSoFar(p: DataPkt)
      requires Valid()
      ensures p in Meeting(Whole(), 0, nextXmitOffset) <==> p in Part(0, nextXmitOffset)
    {
      hide IsPacket, TilesTo, AllSegments, Meeting;
      MeetingMembers(Whole(), 0, nextXmitOffset, p);
      if p in Whole() { AllAuthentic(msg, skbs, seg, hijack, p); }
    }
  }

  lemma GsoSizePositive(skb: Skb, msg: seq<Byte>, seg: nat, hijack: bool)
    requires skb.offset + skb.dataBytes <= |msg| <= HOMA_MAX_MESSAGE_LENGTH && 0 < seg
    requires IsPacket(skb, msg, skb.offset, skb.dataBytes, seg, hijack)
    ensures skb.gsoSegs > 1 ==> skb.gsoSize > 0
  {
  }
}
