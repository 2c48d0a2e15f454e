/** An incoming message: reassembly from packets in any order, and the copy
    of its bytes into the application's buffers. */
module MessageIn {
  import opened GapList
  import opened Buffers
  import opened Wire

  const MAX_SKBS := 20

  /** `i` is in a packet of the queue. */
  ghost predicate Queued(packets: seq<DataPkt>, i: int) {
    exists k :: 0 <= k < |packets| && Covers(packets[k], i)
  }

  class MessageIn {
    const length: nat
    var recvEnd: int
    var gaps: seq<Gap>
    var bytesRemaining: int
    var packets: seq<DataPkt>      // received, in the queue
    var skbs: seq<DataPkt>         // taken off the queue, being copied out
    const offsets: seq<nat>        // buffers of the message in the region
    const region: array<Byte>      // the application's buffer region

    constructor (length: nat, offsets: seq<nat>, region: array<Byte>)
      ensures Valid() && Received() == {} && Pending() == [] && GapsApart(gaps, recvEnd)
      ensures this.length == length && this.offsets == offsets && this.region == region
    {
      this.length, this.offsets, this.region := length, offsets, region;
      recvEnd, gaps, bytesRemaining, packets, skbs := 0, [], length, [], [];
      new;
      AllMissing(length);
    }

    ghost function Received(): set<int>
      reads this
    {
      ReceivedSet(gaps, recvEnd)
    }

    /** What has been received but not yet copied out. */
    ghost function Pending(): seq<DataPkt>
      reads this
    {
      skbs + packets
    }

    /** `bytesRemaining` counts the bytes not received. */
    ghost predicate Valid()
      reads this
    {
      && GapsValid(gaps, recvEnd) && recvEnd <= length
      && bytesRemaining == |Range(0, length) - Received()|
    }

    // ----- Reassembly -----

    /** Adds a packet to the message if it brings only new bytes; `gapAlloc`
        tells whether memory for a gap is available. */
    method AddPacket(p: DataPkt, gapAlloc: bool) returns (kept: bool)
      requires Valid()
      modifies this`recvEnd, this`gaps, this`bytesRemaining, this`packets
      ensures Valid()
      ensures Received() == old(Received()) + (if kept then Range(p.offset, p.offset + |p.data|) else {})
      ensures packets == old(packets) + (if kept then [p] else [])
      ensures kept ==> 0 <= p.offset && p.offset + |p.data| <= length
      ensures kept ==> Range(p.offset, p.offset + |p.data|) !! old(Received())
      ensures !kept ==> recvEnd == old(recvEnd) && gaps == old(gaps) && bytesRemaining == old(bytesRemaining)
      // Nonempty packets leave the gaps apart, and are kept exactly if all
      // of their bytes are new.
      ensures old(GapsApart(gaps, recvEnd)) && |p.data| > 0 ==> GapsApart(gaps, recvEnd)
      ensures old(GapsApart(gaps, recvEnd)) && |p.data| > 0 && gapAlloc && 0 <= p.offset && p.offset + |p.data| <= length ==>
        (kept <==> Range(p.offset, p.offset + |p.data|) !! old(Received()))
      // Without memory there are no more gaps than before.
      ensures !gapAlloc ==> |gaps| <= |old(gaps)|
    {
      hide ReceivedSet, Range, GapsValid, GapsApart;
      var start, len := p.offset, |p.data|;
      GapsNonNegative(gaps, recvEnd);
      var end := start + len;
      kept := false;
      if end > length {
        return;
      }
      if start == recvEnd {
        RecvEndMoved(gaps, recvEnd, end);
        recvEnd := recvEnd + len;
        Keep(p, old(Received()));
        return true;
      }
      if start > recvEnd {
        if gapAlloc {
          GapAppended(gaps, recvEnd, start, end);
          gaps := gaps + [Gap(recvEnd, start)];
          recvEnd := end;
          Keep(p, old(Received()));
          kept := true;
        }
        return;
      }
      kept := FillGap(p, gapAlloc);
    }

    /** Puts a packet with new bytes on the queue. */
    method Keep(p: DataPkt, ghost before: set<int>)
      requires Received() == before + Range(p.offset, p.offset + |p.data|)
      requires before !! Range(p.offset, p.offset + |p.data|)
      requires bytesRemaining == |Range(0, length) - before|
      requires 0 <= p.offset && p.offset + |p.data| <= length
      modifies this`bytesRemaining, this`packets
      ensures packets == old(packets) + [p]
      ensures bytesRemaining == |Range(0, length) - Received()|
    {
      hide ReceivedSet, Range;
      StillMissing(length, before, p.offset, p.offset + |p.data|);
      packets := packets + [p];
      bytesRemaining := bytesRemaining - |p.data|;
    }

    /** A packet that starts below the end of what has been received: looks
        for a gap that it fits into. */
    method FillGap(p: DataPkt, gapAlloc: bool) returns (kept: bool)
      requires Valid() && p.offset < recvEnd && p.offset + |p.data| <= length
      modifies this`gaps, this`bytesRemaining, this`packets
      ensures Valid()
      ensures Received() == old(Received()) + (if kept then Range(p.offset, p.offset + |p.data|) else {})
      ensures packets == old(packets) + (if kept then [p] else [])
      ensures kept ==> 0 <= p.offset && Range(p.offset, p.offset + |p.data|) !! old(Received())
      ensures !kept ==> gaps == old(gaps) && bytesRemaining == old(bytesRemaining)
      ensures old(GapsApart(gaps, recvEnd)) && |p.data| > 0 ==> GapsApart(gaps, recvEnd)
      ensures old(GapsApart(gaps, recvEnd)) && |p.data| > 0 && gapAlloc && 0 <= p.offset && !kept ==>
        !(Range(p.offset, p.offset + |p.data|) !! old(Received()))
      ensures !gapAlloc ==> |gaps| <= |old(gaps)|
    {
      hide ReceivedSet, Range;
      var start, end := p.offset, p.offset + |p.data|;
      for k := 0 to |gaps|
        invariant gaps == old(gaps) && packets == old(packets) && bytesRemaining == old(bytesRemaining)
        invariant forall j :: 0 <= j < k ==> end <= gaps[j].start || gaps[j].end <= start
      {
        var gap := gaps[k];
        if start <= gap.start {
          if end <= gap.start {
            continue;
          }
          if start < gap.start || end > gap.end {
            OverlapsReceived(gaps, recvEnd, k, start, end);
            return false;
          }
          FillAt(k, p, if end >= gap.end then gaps[..k] + gaps[k + 1..] else gaps[k := Gap(end, gap.end)]);
          return true;
        }
        if end >= gap.end {
          if start >= gap.end {
            continue;
          }
          if end > gap.end {
            OverlapsReceived(gaps, recvEnd, k, start, end);
            return false;
          }
          FillAt(k, p, gaps[k := Gap(gap.start, start)]);
          return true;
        }
        if !gapAlloc {
          return false;
        }
        FillAt(k, p, gaps[..k] + [Gap(gap.start, start), Gap(end, gap.end)] + gaps[k + 1..]);
        return true;
      }
      AllReceived(gaps, recvEnd, start, end);
      return false;
    }

    /** The packet lies in the gap at `k`, of which `gaps'` keeps the rest. */
    method FillAt(k: nat, p: DataPkt, gaps': seq<Gap>)
      requires Valid() && k < |gaps| && p.offset + |p.data| <= length
      requires gaps[k].start <= p.offset <= p.offset + |p.data| <= gaps[k].end
      requires gaps' == Filled(gaps, k, p.offset, p.offset + |p.data|)
      modifies this`gaps, this`bytesRemaining, this`packets
      ensures Valid()
      ensures gaps == gaps'
      ensures Received() == old(Received()) + Range(p.offset, p.offset + |p.data|)
      ensures packets == old(packets) + [p]
      ensures 0 <= p.offset && Range(p.offset, p.offset + |p.data|) !! old(Received())
      ensures old(GapsApart(gaps, recvEnd)) && |p.data| > 0 ==> GapsApart(gaps, recvEnd)
    {
      hide Filled, ReceivedSet, Range, GapsApart;
      var start, end := p.offset, p.offset + |p.data|;
      FilledValid(gaps, recvEnd, k, start, end);
      FilledReceived(gaps, recvEnd, k, start, end);
      gaps := gaps';
      Keep(p, old(Received()));
    }

    // ----- Copying out -----

    /** Copies one packet into the message's buffers, piece by piece. */
    method CopyPacket(p: DataPkt)
      requires BuffersOk(offsets, length, region.Length)
      requires 0 <= p.offset && p.offset + |p.data| <= length
      modifies region
      ensures forall i :: 0 <= i < length ==>
        region[Place(i)] == if Covers(p, i) then p.data[i - p.offset] else old(region[Place(i)])
      ensures forall a :: 0 <= a < region.Length && !IsPlace(offsets, length, a) ==>
        region[a] == old(region[a])
    {
      var copied := 0;
      while copied < |p.data|
        invariant copied <= |p.data|
        invariant forall i :: 0 <= i < length ==>
          region[Place(i)] == if p.offset <= i < p.offset + copied then p.data[i - p.offset] else old(region[Place(i)])
        invariant forall a :: 0 <= a < region.Length && !IsPlace(offsets, length, a) ==>
          region[a] == old(region[a])
      {
        var chunk := |p.data| - copied;
        GetBufferFits(offsets, length, p.offset + copied);
        var (dst, available) := GetBuffer(offsets, length, p.offset + copied);
        if available < chunk {
          if available == 0 {
            break;
          }
          chunk := available;
        }
        CopyChunk(p, copied, chunk, dst);
        copied := copied + chunk;
      }
    }

    /** The place of byte `i`, known to be in the region. */
    ghost function Place(i: int): (a: nat)
      requires BuffersOk(offsets, length, region.Length) && 0 <= i < length
      ensures a < region.Length && a == AddrOf(offsets, i)
    {
      AddrInjective(offsets, length, region.Length, i, i);
      AddrOf(offsets, i)
    }

    /** Copies bytes that go to consecutive places. */
    method CopyChunk(p: DataPkt, copied: nat, chunk: nat, dst: nat)
      requires BuffersOk(offsets, length, region.Length)
      requires 0 <= p.offset && p.offset + |p.data| <= length && copied + chunk <= |p.data|
      requires forall i :: p.offset + copied <= i < p.offset + copied + chunk ==>
        AddrOf(offsets, i) == dst + (i - p.offset - copied)
      modifies region
      ensures forall i :: 0 <= i < length ==>
        region[Place(i)] == if p.offset + copied <= i < p.offset + copied + chunk
                            then p.data[i - p.offset] else old(region[Place(i)])
      ensures forall a :: 0 <= a < region.Length && !IsPlace(offsets, length, a) ==>
        region[a] == old(region[a])
    {
      ghost var first := p.offset + copied;
      assert chunk > 0 ==> dst + chunk <= region.Length by {
        if chunk > 0 { AddrInjective(offsets, length, region.Length, first + chunk - 1, first); }
      }
      if chunk > 0 {
        forall j | 0 <= j < chunk {
          region[dst + j] := p.data[copied + j];
        }
      }
      forall i | 0 <= i < length
        ensures region[Place(i)] == if first <= i < first + chunk then p.data[i - p.offset] else old(region[Place(i)])
      {
        if !(first <= i < first + chunk) && dst <= Place(i) < dst + chunk {
          AddrInjective(offsets, length, region.Length, i, first + (Place(i) - dst));
        }
      }
      forall a | dst <= a < dst + chunk ensures IsPlace(offsets, length, a) {
        var i := first + (a - dst);
        assert AddrOf(offsets, i) == a;
      }
    }

    // ----- A message sent by the other side -----

    /** Every received byte of `msg` is in place or still pending, and only
        parts of `msg` are pending. */
    ghost predicate Holds(msg: seq<Byte>)
      reads this, region
    {
      && Valid() && GapsApart(gaps, recvEnd)
      && |msg| == length && BuffersOk(offsets, length, region.Length)
      && HoldsBytes(msg, Pending(), Received())
    }

    ghost predicate HoldsBytes(msg: seq<Byte>, pending: seq<DataPkt>, received: set<int>)
      requires BuffersOk(offsets, length, region.Length) && |msg| == length
      reads region
    {
      && (forall k :: 0 <= k < |pending| ==> Authentic(pending[k], msg))
      && forall i :: i in received ==> 0 <= i < length && (Queued(pending, i) || region[Place(i)] == msg[i])
    }

    /** A packet of the message arrives. */
    method Deliver(p: DataPkt, gapAlloc: bool, ghost msg: seq<Byte>) returns (kept: bool)
      requires Holds(msg) && Authentic(p, msg)
      modifies this`recvEnd, this`gaps, this`bytesRemaining, this`packets
      ensures Holds(msg)
      ensures Received() == old(Received()) + if kept then Range(p.offset, p.offset + |p.data|) else {}
      ensures gapAlloc ==> (kept <==> Range(p.offset, p.offset + |p.data|) !! old(Received()))
    {
      hide ReceivedSet, GapsValid, GapsApart, BuffersOk;
      kept := AddPacket(p, gapAlloc);
      ghost var was := old(Pending());
      assert Pending() == if kept then was + [p] else was;
      QueueGrows(was, p);
    }

    /** Takes up to `MAX_SKBS` packets off the queue. */
    method TakeBatch()
      requires skbs == []
      modifies this`packets, this`skbs
      ensures Pending() == old(Pending())
      ensures |skbs| == if |old(packets)| < MAX_SKBS then |old(packets)| else MAX_SKBS
    {
      while |skbs| < MAX_SKBS && packets != []
        invariant |skbs| <= MAX_SKBS && skbs + packets == old(packets)
        decreases |packets|
      {
        skbs, packets := skbs + [packets[0]], packets[1..];
      }
    }

    /** Copies out the next packet of the batch. More packets may be put on
        the queue in between. */
    method CopyNext(ghost msg: seq<Byte>)
      requires Holds(msg) && skbs != []
      modifies this`skbs, region
      ensures Holds(msg) && skbs == old(skbs)[1..]
      ensures forall a :: 0 <= a < region.Length && !IsPlace(offsets, length, a) ==>
        region[a] == old(region[a])
    {
      hide ReceivedSet, Range, GapsValid, GapsApart, BuffersOk, Authentic, Queued;
      var p := skbs[0];
      skbs := skbs[1..];
      ghost var was := old(Pending());
      assert Pending() == was[1..] && p == was[0];
      AuthenticBytes(p, msg);
      CopyPacket(p);
      forall i | i in Received() ensures Queued(Pending(), i) || region[Place(i)] == msg[i] {
        QueueShrinks(was, i);
      }
    }

    /** Copies out everything that is in the queue. */
    method CopyToUser(ghost msg: seq<Byte>)
      requires Holds(msg) && skbs == []
      modifies this`packets, this`skbs, region
      ensures Holds(msg) && Pending() == []
      ensures forall a :: 0 <= a < region.Length && !IsPlace(offsets, length, a) ==>
        region[a] == old(region[a])
    {
      hide GapsValid, GapsApart, BuffersOk, HoldsBytes, ReceivedSet;
      while packets != []
        invariant Holds(msg) && skbs == []
        invariant forall a :: 0 <= a < region.Length && !IsPlace(offsets, length, a) ==>
          region[a] == old(region[a])
        decreases |packets|
      {
        ghost var before := packets;
        TakeBatch();
        while skbs != []
          invariant Holds(msg) && |packets| < |before|
          invariant forall a :: 0 <= a < region.Length && !IsPlace(offsets, length, a) ==>
            region[a] == old(region[a])
          decreases |skbs|
        {
          CopyNext(msg);
        }
      }
    }

    /** Once nothing is missing and nothing is pending, the application finds
        the whole message where it looks for it. */
    lemma Complete(msg: seq<Byte>)
      requires Holds(msg) && bytesRemaining == 0 && Pending() == []
      ensures forall i :: 0 <= i < length ==> region[Place(i)] == msg[i]
    {
      hide GapsValid, GapsApart;
      forall i | 0 <= i < length ensures region[Place(i)] == msg[i] {
        assert Range(0, length) - Received() == {};
        assert i in Range(0, length);
        assert i in Received();
      }
    }
  }

  lemma AuthenticBytes(p: DataPkt, msg: seq<Byte>)
    requires Authentic(p, msg)
    ensures 0 <= p.offset && p.offset + |p.data| <= |msg|
    ensures forall i :: Covers(p, i) ==> p.data[i - p.offset] == msg[i]
  {
  }

  lemma QueueGrows(q: seq<DataPkt>, p: DataPkt)
    ensures forall i :: Queued(q, i) ==> Queued(q + [p], i)
    ensures forall i :: i in Range(p.offset, p.offset + |p.data|) ==> Queued(q + [p], i)
  {
    forall i | Queued(q, i) ensures Queued(q + [p], i) {
      var k :| 0 <= k < |q| && Covers(q[k], i);
      assert Covers((q + [p])[k], i);
    }
    assert (q + [p])[|q|] == p;
  }

  lemma QueueShrinks(q: seq<DataPkt>, i: int)
    requires q != []
    ensures Queued(q, i) ==> Queued(q[1..], i) || Covers(q[0], i)
  {
    if Queued(q, i) {
      var k :| 0 <= k < |q| && Covers(q[k], i);
      if k > 0 { assert q[1..][k - 1] == q[k]; }
    }
  }

  lemma GapsNonNegative(gaps: seq<Gap>, recvEnd: int)
    requires GapsValid(gaps, recvEnd)
    ensures 0 <= recvEnd
  {
  }

  lemma AllMissing(length: nat)
    ensures ReceivedSet([], 0) == {} && |Range(0, length) - {}| == length
  {
    RangeSize(0, length);
    assert Range(0, length) - {} == Range(0, length);
  }

  /** Receiving new bytes reduces the number of missing ones accordingly. */
  lemma StillMissing(length: nat, before: set<int>, start: int, end: int)
    requires 0 <= start <= end <= length && before !! Range(start, end)
    ensures |Range(0, length) - (before + Range(start, end))| == |Range(0, length) - before| - (end - start)
  {
    RangeSize(start, end);
    var all := Range(0, length) - before;
    assert Range(start, end) <= all;
    assert Range(0, length) - (before + Range(start, end)) == all - Range(start, end);
  }

  /** A packet that sticks out of a gap contains received bytes. */
  lemma OverlapsReceived(gaps: seq<Gap>, recvEnd: int, k: nat, start: int, end: int)
    requires GapsValid(gaps, recvEnd) && k < |gaps|
    requires (start < gaps[k].start < end) || (start < gaps[k].end < end)
    ensures GapsApart(gaps, recvEnd) && 0 <= start ==> !(Range(start, end) !! ReceivedSet(gaps, recvEnd))
  {
    if GapsApart(gaps, recvEnd) && 0 <= start {
      var i := if start < gaps[k].start < end then gaps[k].start - 1 else gaps[k].end;
      assert i in Range(start, end);
      assert !InGaps(gaps, i) by {
        forall j | 0 <= j < |gaps| ensures !(gaps[j].start <= i < gaps[j].end) {}
      }
      assert i in ReceivedSet(gaps, recvEnd);
    }
  }

  /** A packet that meets no gap contains received bytes. */
  lemma AllReceived(gaps: seq<Gap>, recvEnd: int, start: int, end: int)
    requires GapsValid(gaps, recvEnd) && start < recvEnd
    requires forall j :: 0 <= j < |gaps| ==> end <= gaps[j].start || gaps[j].end <= start
    ensures 0 <= start < end ==> !(Range(start, end) !! ReceivedSet(gaps, recvEnd))
  {
    if 0 <= start < end {
      assert start in Range(start, end) && start in ReceivedSet(gaps, recvEnd);
    }
  }
}
