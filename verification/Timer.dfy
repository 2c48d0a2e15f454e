/** The periodic check of an RPC: requests for missing bytes, and for the
    acknowledgment of a finished response. */
module Timer {
  import opened GapList
  import M = MessageIn
  import opened Sender
  import opened Wire

  datatype Control = Resend(offset: int, length: int) | NeedAck | Abort

  datatype Params = Params(resendTicks: nat, resendInterval: nat, timeoutTicks: nat, requestAckTicks: nat)

  /** Some RESEND asks for byte `i`. */
  ghost predicate Asked(sent: seq<Control>, i: int) {
    exists k :: 0 <= k < |sent| && AsksFor(sent[k], i)
  }

  ghost predicate AsksFor(c: Control, i: int) {
    c.Resend? && c.offset <= i < c.offset + c.length
  }

  /** Requests all gaps. */
  method GapRetry(gaps: seq<Gap>) returns (sent: seq<Control>)
    ensures forall i :: Asked(sent, i) <==> InGaps(gaps, i)
    ensures forall k :: 0 <= k < |sent| ==> sent[k].Resend?
  {
    sent := [];
    for k := 0 to |gaps|
      invariant |sent| == k
      invariant forall j :: 0 <= j < k ==> sent[j] == Resend(gaps[j].start, gaps[j].end - gaps[j].start)
    {
      sent := sent + [Resend(gaps[k].start, gaps[k].end - gaps[k].start)];
    }
    forall i ensures Asked(sent, i) <==> InGaps(gaps, i) {
      if InGaps(gaps, i) {
        var k :| 0 <= k < |gaps| && gaps[k].start <= i < gaps[k].end;
        assert AsksFor(sent[k], i);
      }
    }
  }

  function Max(a: int, b: int): int {
    if a < b then b else a
  }

  class Rpc {
    const isClient: bool
    var state: RpcState
    var msgin: M.MessageIn?        // null until data has arrived
    var granted: int               // of the incoming message
    var numBpages: nat
    var nextXmitOffset: int        // of the outgoing message
    var outGranted: int
    var outLength: int
    var silentTicks: nat
    var doneTimerTicks: nat

    /** A check that finds the RPC silent for this long sends requests. */
    ghost predicate Due(p: Params)
      requires 0 < p.resendInterval
      reads this
    {
      && p.resendTicks <= silentTicks < p.timeoutTicks
      && (silentTicks - p.resendTicks) % p.resendInterval == 0
    }

    /** Nothing more is expected: as many bytes have come as were granted, or
        there is no place for them. */
    ghost predicate Satisfied()
      requires msgin != null
      reads this, msgin
    {
      msgin.length - msgin.bytesRemaining >= granted || numBpages == 0
    }

    /** The RPC need not hear from the other side. */
    ghost predicate Quiet()
      requires state.Incoming? ==> msgin != null
      reads this, msgin
    {
      if state.Incoming? then Satisfied()
      else !isClient || (state.Outgoing? && nextXmitOffset < outGranted)
    }

    /** Whatever is missing below the larger of `recvEnd` and `granted` is
        asked for. */
    ghost predicate AllRequested(sent: seq<Control>)
      requires msgin != null
      reads this, msgin
    {
      forall i :: 0 <= i < Max(msgin.recvEnd, granted) && i !in msgin.Received() ==> Asked(sent, i)
    }

    constructor (isClient: bool, state: RpcState)
      ensures this.isClient == isClient && this.state == state && msgin == null && granted == 0 && numBpages == 0
      ensures nextXmitOffset == outGranted == outLength == 0 && silentTicks == doneTimerTicks == 0
    {
      this.isClient, this.state, msgin, granted, numBpages := isClient, state, null, 0, 0;
      nextXmitOffset, outGranted, outLength, silentTicks, doneTimerTicks := 0, 0, 0, 0, 0;
    }

    /** One check. For an incoming message, the RESENDs of a check that is due
        ask for exactly the missing bytes below the larger of `recvEnd` and
        `granted`. */
    method CheckRpc(p: Params, timerTicks: nat) returns (sent: seq<Control>)
      requires 0 < p.resendInterval
      requires state.Incoming? ==> msgin != null
      requires msgin != null ==> msgin.Valid()
      modifies this`silentTicks, this`doneTimerTicks
      ensures NeedAck in sent <==>
        && !isClient && state.Outgoing? && nextXmitOffset >= outLength
        && old(doneTimerTicks) != 0 && timerTicks >= old(doneTimerTicks) + p.requestAckTicks
      ensures Abort in sent <==> !Quiet() && p.resendTicks <= old(silentTicks) && p.timeoutTicks <= old(silentTicks)
      ensures silentTicks == if Quiet() then 0 else old(silentTicks)
      ensures doneTimerTicks ==
        if !isClient && state.Outgoing? && nextXmitOffset >= outLength && old(doneTimerTicks) == 0 then timerTicks
        else old(doneTimerTicks)
      ensures Quiet() ==> forall i :: !Asked(sent, i)
      ensures state.Incoming? && !Satisfied() && old(Due(p)) ==>
        forall i :: Asked(sent, i) <==> 0 <= i < Max(msgin.recvEnd, granted) && i !in msgin.Received()
      ensures state.Incoming? && !old(Due(p)) ==> forall i :: !Asked(sent, i)
      // With buffers, a due check asks for all that is missing exactly if
      // fewer bytes have come than were granted, or nothing is missing.
      ensures state.Incoming? && numBpages > 0 && old(Due(p)) ==>
        (AllRequested(sent) <==>
          || msgin.length - msgin.bytesRemaining < granted
          || (msgin.gaps == [] && granted <= msgin.recvEnd))
      ensures isClient && state.Outgoing? && msgin == null && nextXmitOffset >= outGranted && old(Due(p)) ==>
        sent == [Resend(0, 100)]
    {
      hide ReceivedSet, GapsValid, AllRequested, Asked, Max;
      sent := [];
      if !isClient && state.Outgoing? && nextXmitOffset >= outLength {
        if doneTimerTicks == 0 {
          doneTimerTicks := timerTicks;
        } else if timerTicks >= doneTimerTicks + p.requestAckTicks {
          sent := sent + [NeedAck];
        }
      }
      NoResends(sent);
      NoResends(sent + [Abort]);
      if state.Incoming? {
        if msgin.length - msgin.bytesRemaining >= granted {
          silentTicks := 0;
          NoneRequested(sent);
          return;
        }
        if numBpages == 0 {
          silentTicks := 0;
          return;
        }
      } else if !isClient {
        silentTicks := 0;
        return;
      }
      if state.Outgoing? {
        if nextXmitOffset < outGranted {
          silentTicks := 0;
          return;
        }
      }
      if silentTicks < p.resendTicks {
        return;
      }
      if silentTicks >= p.timeoutTicks {
        sent := sent + [Abort];
        return;
      }
      if (silentTicks - p.resendTicks) % p.resendInterval != 0 {
        return;
      }
      if msgin == null {
        sent := sent + [Resend(0, 100)];
      } else {
        sent := RequestMissing();
      }
    }

    /** Requests all gaps, and what is granted beyond `recvEnd`. */
    method RequestMissing() returns (sent: seq<Control>)
      requires msgin != null && msgin.Valid()
      ensures forall i :: Asked(sent, i) <==> 0 <= i < Max(msgin.recvEnd, granted) && i !in msgin.Received()
      ensures AllRequested(sent)
      ensures forall k :: 0 <= k < |sent| ==> sent[k].Resend?
    {
      var requests := GapRetry(msgin.gaps);
      sent := requests;
      if granted != msgin.recvEnd {
        sent := sent + [Resend(msgin.recvEnd, granted - msgin.recvEnd)];
      }
      AskedOneMore(requests, Resend(msgin.recvEnd, granted - msgin.recvEnd));
      GapsBelow(msgin.gaps, msgin.recvEnd);
    }

    lemma NoneRequested(sent: seq<Control>)
      requires msgin != null && msgin.Valid() && forall i :: !Asked(sent, i)
      ensures AllRequested(sent) <==> msgin.gaps == [] && granted <= msgin.recvEnd
    {
      hide Asked;
      MissingBelow(msgin.gaps, msgin.recvEnd, granted);
      assert AllRequested(sent) <==> forall i :: 0 <= i < Max(msgin.recvEnd, granted) ==> i in msgin.Received();
    }

    /** A receiver that expects nothing more lacks nothing exactly if it has
        no gaps; one that is granted completely, exactly if it has it all. */
    lemma SatisfiedIfComplete()
      requires msgin != null && msgin.Valid() && numBpages > 0
      ensures Satisfied() ==>
        (Range(0, Max(msgin.recvEnd, granted)) <= msgin.Received() <==> msgin.gaps == [] && granted <= msgin.recvEnd)
      ensures granted == msgin.length ==> (Satisfied() <==> Range(0, msgin.length) <= msgin.Received())
    {
      MissingBelow(msgin.gaps, msgin.recvEnd, granted);
      var missing := Range(0, msgin.length) - msgin.Received();
      assert missing == {} <==> |missing| == 0;
      assert missing == {} <==> Range(0, msgin.length) <= msgin.Received();
    }
  }

  lemma NoResends(sent: seq<Control>)
    ensures (forall k :: 0 <= k < |sent| ==> !sent[k].Resend?) ==> forall i :: !Asked(sent, i)
  {
  }

  lemma AskedOneMore(requests: seq<Control>, c: Control)
    ensures forall i :: Asked(requests + [c], i) <==> Asked(requests, i) || AsksFor(c, i)
  {
    forall i ensures Asked(requests + [c], i) <==> Asked(requests, i) || AsksFor(c, i) {
      var all := requests + [c];
      if Asked(requests, i) {
        var k :| 0 <= k < |requests| && AsksFor(requests[k], i);
        assert AsksFor(all[k], i);
      }
      if AsksFor(c, i) { assert AsksFor(all[|requests|], i); }
    }
  }

  lemma GapsBelow(gaps: seq<Gap>, recvEnd: int)
    requires GapsValid(gaps, recvEnd)
    ensures forall i :: InGaps(gaps, i) <==> 0 <= i < recvEnd && i !in ReceivedSet(gaps, recvEnd)
  {
  }

  /** Nothing is missing exactly if there is no gap and the granted bytes end
      by `recvEnd`. */
  lemma MissingBelow(gaps: seq<Gap>, recvEnd: int, granted: int)
    requires GapsValid(gaps, recvEnd)
    ensures (forall i :: 0 <= i < Max(recvEnd, granted) ==> i in ReceivedSet(gaps, recvEnd)) <==>
            gaps == [] && granted <= recvEnd
  {
    if gaps != [] {
      assert InGaps(gaps, gaps[0].start);
      assert gaps[0].start !in ReceivedSet(gaps, recvEnd);
    } else if granted > recvEnd {
      assert recvEnd !in ReceivedSet(gaps, recvEnd);
    }
  }

  /** Before everything is granted, bytes beyond the granted ones count too: a
      receiver may lack a granted byte and yet, when a check is due, not ask
      for it. */
  method GrantedByteNotRequested() returns (rpc: Rpc, due: bool, sent: seq<Control>)
    ensures due && rpc.state.Incoming? && rpc.numBpages > 0
    ensures rpc.msgin != null && 0 < rpc.granted && 0 !in rpc.msgin.Received()
    ensures !Asked(sent, 0)
  {
    hide ReceivedSet, Range, GapsValid, GapsApart;
    var p := Params(5, 5, 100, 100);
    var m := LateFirstPacket();
    rpc := new Rpc(true, Incoming);
    rpc.msgin, rpc.granted, rpc.numBpages, rpc.silentTicks := m, 1000, 1, 5;
    due := p.resendTicks <= rpc.silentTicks < p.timeoutTicks
           && (rpc.silentTicks - p.resendTicks) % p.resendInterval == 0;
    sent := rpc.CheckRpc(p, 0);
  }

  /** A message whose bytes 900 to 2300 have arrived. */
  method LateFirstPacket() returns (m: M.MessageIn)
    ensures m.Valid() && 0 !in m.Received() && m.length - m.bytesRemaining == 1400
  {
    hide ReceivedSet, Range, GapsValid, GapsApart;
    var region := new Byte[0](_ => 0);
    m := new M.MessageIn(3000, [], region);
    assert Range(900, 2300) !! {};
    var kept := m.AddPacket(DataPkt(900, seq(1400, _ => 0)), true);
    assert m.Received() == Range(900, 2300);
    RangeSize(900, 2300);
    RangeWithin(900, 2300, 3000);
    MissingCount(3000, m.Received());
  }

  lemma RangeWithin(a: nat, b: nat, length: nat)
    requires 0 < a && b <= length
    ensures Range(a, b) <= Range(0, length) && 0 !in Range(a, b)
  {
  }

  lemma MissingCount(length: nat, received: set<int>)
    requires received <= Range(0, length)
    ensures length - |Range(0, length) - received| == |received|
  {
    RangeSize(0, length);
    assert Range(0, length) == received + (Range(0, length) - received);
  }
}
