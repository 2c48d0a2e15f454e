/** Retransmission: the packets that answer a request for a range of bytes are
    exactly the original segments that meet the range. */
module Resend {
  import opened Wire
  import opened Outgoing

  /** All segments of a message. */
  ghost function AllSegments(msg: seq<Byte>, skbs: seq<Skb>, seg: nat): seq<DataPkt>
    requires 0 < seg && forall k :: 0 <= k < |skbs| ==> skbs[k].offset + skbs[k].dataBytes <= |msg|
  {
    if skbs == [] then []
    else
      var n := |skbs| - 1;
      AllSegments(msg, skbs[..n], seg) + Segments(msg, skbs[n].offset, skbs[n].dataBytes, seg)
  }

  ghost predicate Meets(p: DataPkt, start: int, end: int) {
    p.offset < end && start < p.offset + |p.data|
  }

  /** The packets that contain bytes of the range, in order. */
  ghost function Meeting(ps: seq<DataPkt>, start: int, end: int): seq<DataPkt> {
    if ps == [] then []
    else (if Meets(ps[0], start, end) then [ps[0]] else []) + Meeting(ps[1..], start, end)
  }

  lemma {:induction false} MeetingConcat(a: seq<DataPkt>, b: seq<DataPkt>, start: int, end: int)
    ensures Meeting(a + b, start, end) == Meeting(a, start, end) + Meeting(b, start, end)
  {
    if a == [] {
      assert a + b == b;
    } else {
      var first := if Meets(a[0], start, end) then [a[0]] else [];
      var rest := Meeting(a[1..], start, end);
      assert Meeting(a + b, start, end) == first + Meeting(a[1..] + b, start, end) by {
        assert (a + b)[1..] == a[1..] + b;
      }
      MeetingConcat(a[1..], b, start, end);
      assert first + (rest + Meeting(b, start, end)) == (first + rest) + Meeting(b, start, end);
    }
  }

  lemma {:induction false} MeetingNone(ps: seq<DataPkt>, start: int, end: int)
    requires forall p :: p in ps ==> !Meets(p, start, end)
    ensures Meeting(ps, start, end) == []
  {
    if ps != [] { MeetingNone(ps[1..], start, end); }
  }

  /** Segments lie in their range and carry what belongs there. */
  lemma {:induction false} SegmentsAuthentic(msg: seq<Byte>, lo: nat, n: nat, seg: nat)
    requires lo + n <= |msg| && 0 < seg
    ensures forall p :: p in Segments(msg, lo, n, seg) ==>
      Authentic(p, msg) && lo <= p.offset && p.offset + |p.data| <= lo + n && |p.data| <= seg
    decreases n
  {
    if n > 0 { SegmentsAuthentic(msg, lo + First(n, seg), n - First(n, seg), seg); }
  }

  lemma {:induction false} SegmentsFull(msg: seq<Byte>, lo: nat, n: nat, seg: nat)
    requires lo + n <= |msg| && 0 < seg
    ensures forall k :: 0 <= k < |Segments(msg, lo, n, seg)| - 1 ==> |Segments(msg, lo, n, seg)[k].data| == seg
    decreases n
  {
    if n > seg {
      var ps, rest := Segments(msg, lo, n, seg), Segments(msg, lo + seg, n - seg, seg);
      SegmentsFull(msg, lo + seg, n - seg, seg);
      assert ps == [DataPkt(lo, msg[lo..lo + seg])] + rest;
      forall k | 0 <= k < |ps| - 1 ensures |ps[k].data| == seg {
        if k == 0 {
          assert ps[k] == DataPkt(lo, msg[lo..lo + seg]);
        } else {
          assert ps[k] == rest[k - 1];
        }
      }
    } else if n > 0 {
      assert Segments(msg, lo + n, 0, seg) == [];
    }
  }

  /** The data of the segments from `at` on, as laid out in the packet. */
  ghost predicate LaidOut(tail: seq<Byte>, msg: seq<Byte>, at: nat, n: nat, seg: nat, hijack: bool)
    requires at + n <= |msg| <= HOMA_MAX_MESSAGE_LENGTH && 0 < seg
  {
    tail == if hijack || n <= seg then msg[at..at + n] else Body(msg, at, n, seg)
  }

  lemma NextSegment(tail: seq<Byte>, msg: seq<Byte>, at: nat, n: nat, seg: nat, hijack: bool)
    requires at + n <= |msg| <= HOMA_MAX_MESSAGE_LENGTH && 0 < seg && 0 < n
    requires LaidOut(tail, msg, at, n, seg, hijack)
    ensures |tail| >= First(n, seg) && tail[..First(n, seg)] == msg[at..at + First(n, seg)]
    ensures n > seg ==>
      var skip := seg + if hijack then 0 else SEG_HDR_LENGTH;
      |tail| >= skip && LaidOut(tail[skip..], msg, at + seg, n - seg, seg, hijack)
  {
    if n > seg && !hijack {
      InterleavedSplit(msg, at + seg, n - seg, seg);
      var rest := Body(msg, at + seg, n - seg, seg);
      assert tail == msg[at..at + seg] + (Encode32(at + seg) + rest);
      assert tail[seg + SEG_HDR_LENGTH..] == rest;
    }
  }

  /** The rest of the packet, from `segOffset` on, holds the segments of the
      `left` bytes at `at`. */
  ghost predicate AtSegment(skb: Skb, msg: seq<Byte>, at: nat, segOffset: nat, left: nat, seg: nat, hijack: bool)
    requires at + left <= |msg| <= HOMA_MAX_MESSAGE_LENGTH && 0 < seg
  {
    && DATA_HDR_LENGTH <= segOffset <= DATA_HDR_LENGTH + |skb.body|
    && LaidOut(skb.body[segOffset - DATA_HDR_LENGTH..], msg, at, left, seg, hijack)
    && (left > seg ==> skb.gsoSize == seg + if hijack then 0 else SEG_HDR_LENGTH)
  }

  lemma AtFirst(skb: Skb, msg: seq<Byte>, seg: nat, hijack: bool)
    requires |msg| <= HOMA_MAX_MESSAGE_LENGTH && 0 < seg && skb.offset + skb.dataBytes <= |msg|
    requires IsPacket(skb, msg, skb.offset, skb.dataBytes, seg, hijack)
    ensures AtSegment(skb, msg, skb.offset, DATA_HDR_LENGTH, skb.dataBytes, seg, hijack)
    ensures if skb.dataBytes > seg then skb.gsoSegs > 1 && skb.segLength == seg else skb.gsoSegs <= 1
  {
    assert skb.body[0..] == skb.body;
  }

  lemma AtNext(skb: Skb, msg: seq<Byte>, at: nat, segOffset: nat, left: nat, seg: nat, hijack: bool)
    requires at + left <= |msg| <= HOMA_MAX_MESSAGE_LENGTH && 0 < seg && 0 < left
    requires AtSegment(skb, msg, at, segOffset, left, seg, hijack)
    ensures var k := segOffset - DATA_HDR_LENGTH;
      0 <= k && k + First(left, seg) <= |skb.body| && skb.body[k..k + First(left, seg)] == msg[at..at + First(left, seg)]
    ensures left > seg ==> AtSegment(skb, msg, at + seg, segOffset + skb.gsoSize, left - seg, seg, hijack)
  {
    hide Body;
    var k := segOffset - DATA_HDR_LENGTH;
    var tail := skb.body[k..];
    NextSegment(tail, msg, at, left, seg, hijack);
    assert tail[..First(left, seg)] == skb.body[k..k + First(left, seg)];
    if left > seg { assert skb.body[k + skb.gsoSize..] == tail[skb.gsoSize..]; }
  }

  /** What remains to be sent after the first segment. */
  lemma MeetingFirst(msg: seq<Byte>, at: nat, left: nat, seg: nat, start: int, end: int)
    requires at + left <= |msg| && 0 < seg && 0 < left
    ensures var n := First(left, seg);
      Meeting(Segments(msg, at, left, seg), start, end) ==
      (if at < end && start < at + n then [DataPkt(at, msg[at..at + n])] else [])
      + Meeting(Segments(msg, at + n, left - n, seg), start, end)
    ensures end <= at ==> Meeting(Segments(msg, at, left, seg), start, end) == []
  {
    var n := First(left, seg);
    var all := Segments(msg, at, left, seg);
    assert all[1..] == Segments(msg, at + n, left - n, seg);
    if end <= at {
      SegmentsAuthentic(msg, at, left, seg);
      MeetingNone(all, start, end);
    }
  }

  /** A segment as it is retransmitted: the offset is in both places. */
  function Retransmission(offset: nat, data: seq<Byte>): (w: WirePkt)
    requires offset < HOMA_MAX_MESSAGE_LENGTH
    ensures Decode(w) == DataPkt(offset, data)
  {
    EncodeRoundTrip(offset);
    WirePkt(offset, Encode32(offset), data)
  }

  lemma {:induction false} DecodeConcat(a: seq<WirePkt>, b: seq<WirePkt>)
    ensures DecodeAll(a + b) == DecodeAll(a) + DecodeAll(b)
  {
    if a == [] {
      assert a + b == b;
    } else {
      assert (a + b)[1..] == a[1..] + b;
      DecodeConcat(a[1..], b);
      Regroup([Decode(a[0])], DecodeAll(a[1..]), DecodeAll(b));
    }
  }

  lemma DecodeOneMore(out: seq<WirePkt>, w: WirePkt)
    ensures DecodeAll(out + [w]) == DecodeAll(out) + [Decode(w)]
  {
    DecodeConcat(out, [w]);
    assert [w][1..] == [];
  }

  /** One more retransmission. */
  method Emit(out: seq<WirePkt>, offset: nat, data: seq<Byte>) returns (out': seq<WirePkt>)
    requires offset < HOMA_MAX_MESSAGE_LENGTH
    ensures DecodeAll(out') == DecodeAll(out) + [DataPkt(offset, data)]
  {
    hide DecodeAll;
    var w := Retransmission(offset, data);
    DecodeOneMore(out, w);
    out' := out + [w];
  }

  /** Retransmits the segments of one packet that meet the range; `done` tells
      that the range ends before the packet does. */
  method ResendPacket(skb: Skb, start: int, end: int, ghost msg: seq<Byte>, ghost seg: nat, ghost hijack: bool)
    returns (out: seq<WirePkt>, done: bool)
    requires |msg| <= HOMA_MAX_MESSAGE_LENGTH && 0 < seg
    requires 0 < skb.dataBytes && skb.offset + skb.dataBytes <= |msg|
    requires IsPacket(skb, msg, skb.offset, skb.dataBytes, seg, hijack)
    ensures DecodeAll(out) == Meeting(Segments(msg, skb.offset, skb.dataBytes, seg), start, end)
    ensures done ==> end <= skb.offset + skb.dataBytes
  {
    hide IsPacket, AtSegment, Segments, Meeting, First, DecodeAll, Decode, Encode32, Retransmission;
    var offset: nat, segOffset: nat, dataLeft: nat := skb.offset, DATA_HDR_LENGTH, skb.dataBytes;
    AtFirst(skb, msg, seg, hijack);
    var segLength: nat := if skb.gsoSegs <= 1 then dataLeft else skb.segLength;
    ghost var all := Meeting(Segments(msg, skb.offset, skb.dataBytes, seg), start, end);
    out, done := [], false;
    NothingDecoded();
    while dataLeft > 0
      invariant dataLeft <= skb.dataBytes && offset == skb.offset + skb.dataBytes - dataLeft
      invariant dataLeft > seg ==> segLength == seg
      invariant dataLeft <= seg ==> segLength >= dataLeft
      invariant dataLeft > 0 ==> AtSegment(skb, msg, offset, segOffset, dataLeft, seg, hijack)
      invariant all == DecodeAll(out) + Meeting(Segments(msg, offset, dataLeft, seg), start, end)
    {
      if segLength > dataLeft {
        segLength := dataLeft;
      }
      FirstIs(dataLeft, seg);
      AtNext(skb, msg, offset, segOffset, dataLeft, seg, hijack);
      MeetingFirst(msg, offset, dataLeft, seg, start, end);
      ghost var rest := Meeting(Segments(msg, offset + segLength, dataLeft - segLength, seg), start, end);
      ghost var before, piece := DecodeAll(out), [];
      if end <= offset {
        return out, true;
      }
      if offset + segLength > start {
        var k := segOffset - DATA_HDR_LENGTH;
        out := Emit(out, offset, skb.body[k..k + segLength]);
        piece := [DataPkt(offset, msg[offset..offset + segLength])];
      }
      assert DecodeAll(out) == before + piece;
      Regroup(before, piece, rest);
      dataLeft := dataLeft - segLength;
      offset := offset + segLength;
      segOffset := segOffset + skb.gsoSize;
    }
    NothingMeets(msg, offset, seg, start, end);
  }

  lemma NothingDecoded()
    ensures DecodeAll([]) == []
  {
  }

  lemma Regroup(a: seq<DataPkt>, b: seq<DataPkt>, c: seq<DataPkt>)
    ensures a + (b + c) == a + b + c
  {
  }

  lemma FirstIs(n: nat, seg: nat)
    ensures First(n, seg) == if n <= seg then n else seg
  {
  }

  lemma NothingMeets(msg: seq<Byte>, at: nat, seg: nat, start: int, end: int)
    requires at <= |msg| && 0 < seg
    ensures Meeting(Segments(msg, at, 0, seg), start, end) == []
  {
  }

  /** Answers a request for the bytes from `start` to `end`. */
  method ResendData(skbs: seq<Skb>, start: int, end: int, ghost msg: seq<Byte>, ghost seg: nat, ghost hijack: bool)
    returns (out: seq<WirePkt>)
    requires |msg| <= HOMA_MAX_MESSAGE_LENGTH && 0 < seg && TilesTo(skbs, msg, |msg|, seg, hijack)
    ensures start < end ==> DecodeAll(out) == Meeting(AllSegments(msg, skbs, seg), start, end)
    ensures end <= start ==> out == []
  {
    hide IsPacket, Segments, Meeting, Decode;
    out := [];
    if end <= start {
      return;
    }
    NothingSent(msg, seg, start, end);
    for k := 0 to |skbs|
      invariant DecodeAll(out) == Meeting(AllSegments(msg, skbs[..k], seg), start, end)
    {
      var skb := skbs[k];
      if skb.offset >= end {
        BeyondRange(skbs, k, start, end, msg, seg, hijack);
        return;
      }
      SegmentsStep(msg, skbs, k, seg, start, end);
      if start >= skb.offset + skb.dataBytes {
        SegmentsAuthentic(msg, skb.offset, skb.dataBytes, seg);
        MeetingNone(Segments(msg, skb.offset, skb.dataBytes, seg), start, end);
        continue;
      }
      var part, done := ResendPacket(skb, start, end, msg, seg, hijack);
      DecodeConcat(out, part);
      out := out + part;
      if done {
        BeyondRange(skbs, k + 1, start, end, msg, seg, hijack);
        return;
      }
    }
    assert skbs[..|skbs|] == skbs;
  }

  lemma NothingSent(msg: seq<Byte>, seg: nat, start: int, end: int)
    requires 0 < seg
    ensures Meeting(AllSegments(msg, [], seg), start, end) == [] == DecodeAll([])
  {
  }

  lemma SegmentsStep(msg: seq<Byte>, skbs: seq<Skb>, k: nat, seg: nat, start: int, end: int)
    requires k < |skbs| && 0 < seg
    requires forall j :: 0 <= j < |skbs| ==> skbs[j].offset + skbs[j].dataBytes <= |msg|
    ensures Meeting(AllSegments(msg, skbs[..k + 1], seg), start, end) ==
            Meeting(AllSegments(msg, skbs[..k], seg), start, end)
            + Meeting(Segments(msg, skbs[k].offset, skbs[k].dataBytes, seg), start, end)
  {
    assert skbs[..k + 1][..k] == skbs[..k];
    MeetingConcat(AllSegments(msg, skbs[..k], seg), Segments(msg, skbs[k].offset, skbs[k].dataBytes, seg), start, end);
  }

  /** Packets beyond the range contribute nothing. */
  lemma {:induction false} BeyondRange(skbs: seq<Skb>, k: nat, start: int, end: int,
                                       msg: seq<Byte>, seg: nat, hijack: bool)
    requires |msg| <= HOMA_MAX_MESSAGE_LENGTH && 0 < seg && TilesTo(skbs, msg, |msg|, seg, hijack)
    requires k <= |skbs|
    requires k < |skbs| ==> end <= skbs[k].offset
    ensures Meeting(AllSegments(msg, skbs, seg), start, end) == Meeting(AllSegments(msg, skbs[..k], seg), start, end)
    decreases |skbs| - k
  {
    if k == |skbs| {
      assert skbs[..k] == skbs;
    } else {
      SegmentsStep(msg, skbs, k, seg, start, end);
      SegmentsAuthentic(msg, skbs[k].offset, skbs[k].dataBytes, seg);
      MeetingNone(Segments(msg, skbs[k].offset, skbs[k].dataBytes, seg), start, end);
      BeyondRange(skbs, k + 1, start, end, msg, seg, hijack);
    }
  }

  // ----- The segments partition the message -----

  lemma {:induction false} SegmentsCover(msg: seq<Byte>, lo: nat, n: nat, seg: nat, i: int) returns (p: DataPkt)
    requires lo + n <= |msg| && 0 < seg && lo <= i < lo + n
    ensures p in Segments(msg, lo, n, seg) && Covers(p, i)
    decreases n
  {
    var first := First(n, seg);
    if i < lo + first {
      p := DataPkt(lo, msg[lo..lo + first]);
    } else {
      p := SegmentsCover(msg, lo + first, n - first, seg, i);
    }
  }

  lemma {:induction false} SegmentsDisjoint(msg: seq<Byte>, lo: nat, n: nat, seg: nat, p: DataPkt, q: DataPkt, i: int)
    requires lo + n <= |msg| && 0 < seg
    requires p in Segments(msg, lo, n, seg) && q in Segments(msg, lo, n, seg) && Covers(p, i) && Covers(q, i)
    ensures p == q
    decreases n
  {
    if n > 0 {
      var first := First(n, seg);
      var head, rest := DataPkt(lo, msg[lo..lo + first]), Segments(msg, lo + first, n - first, seg);
      assert Segments(msg, lo, n, seg) == [head] + rest;
      SegmentsAuthentic(msg, lo + first, n - first, seg);
      if i >= lo + first { SegmentsDisjoint(msg, lo + first, n - first, seg, p, q, i); }
    }
  }

  lemma {:induction false} SegmentOfPacket(msg: seq<Byte>, skbs: seq<Skb>, seg: nat, p: DataPkt) returns (k: nat)
    requires 0 < seg && forall j :: 0 <= j < |skbs| ==> skbs[j].offset + skbs[j].dataBytes <= |msg|
    requires p in AllSegments(msg, skbs, seg)
    ensures k < |skbs| && p in Segments(msg, skbs[k].offset, skbs[k].dataBytes, seg)
  {
    k := |skbs| - 1;
    if p !in Segments(msg, skbs[k].offset, skbs[k].dataBytes, seg) {
      k := SegmentOfPacket(msg, skbs[..k], seg, p);
    }
  }

  lemma {:induction false} PacketSegments(msg: seq<Byte>, skbs: seq<Skb>, seg: nat, k: nat, p: DataPkt)
    requires 0 < seg && forall j :: 0 <= j < |skbs| ==> skbs[j].offset + skbs[j].dataBytes <= |msg|
    requires k < |skbs| && p in Segments(msg, skbs[k].offset, skbs[k].dataBytes, seg)
    ensures p in AllSegments(msg, skbs, seg)
  {
    if k < |skbs| - 1 { PacketSegments(msg, skbs[..|skbs| - 1], seg, k, p); }
  }

  lemma PacketOfByte(skbs: seq<Skb>, msg: seq<Byte>, seg: nat, hijack: bool, i: nat) returns (k: nat)
    requires |msg| <= HOMA_MAX_MESSAGE_LENGTH && 0 < seg && TilesTo(skbs, msg, |msg|, seg, hijack) && i < |msg|
    ensures k < |skbs| && skbs[k].offset <= i < skbs[k].offset + skbs[k].dataBytes
  {
    k := 0;
    while skbs[k].offset + skbs[k].dataBytes <= i
      invariant k < |skbs| && skbs[k].offset <= i
      decreases |skbs| - k
    {
      k := k + 1;
    }
  }

  lemma {:induction false} PacketsInOrder(skbs: seq<Skb>, msg: seq<Byte>, seg: nat, hijack: bool, j: nat, k: nat)
    requires |msg| <= HOMA_MAX_MESSAGE_LENGTH && 0 < seg && TilesTo(skbs, msg, |msg|, seg, hijack)
    requires j < k < |skbs|
    ensures skbs[j].offset + skbs[j].dataBytes <= skbs[k].offset
  {
    if j < k - 1 { PacketsInOrder(skbs, msg, seg, hijack, j, k - 1); }
  }

  /** Every segment is part of the message and fits into a packet on the
      wire. */
  lemma AllAuthentic(msg: seq<Byte>, skbs: seq<Skb>, seg: nat, hijack: bool, p: DataPkt)
    requires |msg| <= HOMA_MAX_MESSAGE_LENGTH && 0 < seg && TilesTo(skbs, msg, |msg|, seg, hijack)
    requires p in AllSegments(msg, skbs, seg)
    ensures Authentic(p, msg) && |p.data| <= seg
  {
    var k := SegmentOfPacket(msg, skbs, seg, p);
    SegmentsAuthentic(msg, skbs[k].offset, skbs[k].dataBytes, seg);
  }

  /** Whatever a packet is split into fits the MTU. */
  lemma SegmentsFitMtu(skb: Skb, msg: seq<Byte>, mtu: nat, ipHeader: nat, hijack: bool)
    requires |msg| <= HOMA_MAX_MESSAGE_LENGTH && MaxSegData(mtu, ipHeader) > 0
    requires 0 < skb.dataBytes && skb.offset + skb.dataBytes <= |msg|
    requires IsPacket(skb, msg, skb.offset, skb.dataBytes, MaxSegData(mtu, ipHeader), hijack)
    ensures skb.gsoSegs > 1 ==> skb.gsoSize > 0
    ensures forall p :: p in DecodeAll(Segmented(skb)) ==> ipHeader + DATA_HDR_LENGTH + |p.data| <= mtu
    // All but the last leave no room.
    ensures var ps := DecodeAll(Segmented(skb));
      forall k :: 0 <= k < |ps| - 1 ==> ipHeader + DATA_HDR_LENGTH + |ps[k].data| == mtu
  {
    SegmentsFull(msg, skb.offset, skb.dataBytes, MaxSegData(mtu, ipHeader));
    SegmentationRoundTrip(skb, msg, skb.offset, skb.dataBytes, MaxSegData(mtu, ipHeader), hijack);
    SegmentsAuthentic(msg, skb.offset, skb.dataBytes, MaxSegData(mtu, ipHeader));
  }

  /** Every byte of the message is in one segment. */
  lemma AllCovered(msg: seq<Byte>, skbs: seq<Skb>, seg: nat, hijack: bool, i: nat) returns (p: DataPkt)
    requires |msg| <= HOMA_MAX_MESSAGE_LENGTH && 0 < seg && TilesTo(skbs, msg, |msg|, seg, hijack) && i < |msg|
    ensures p in AllSegments(msg, skbs, seg) && Covers(p, i)
  {
    var k := PacketOfByte(skbs, msg, seg, hijack, i);
    p := SegmentsCover(msg, skbs[k].offset, skbs[k].dataBytes, seg, i);
    PacketSegments(msg, skbs, seg, k, p);
  }

  /** No byte is in two different segments. */
  lemma AllDisjoint(msg: seq<Byte>, skbs: seq<Skb>, seg: nat, hijack: bool, p: DataPkt, q: DataPkt, i: int)
    requires |msg| <= HOMA_MAX_MESSAGE_LENGTH && 0 < seg && TilesTo(skbs, msg, |msg|, seg, hijack)
    requires p in AllSegments(msg, skbs, seg) && q in AllSegments(msg, skbs, seg) && Covers(p, i) && Covers(q, i)
    ensures p == q
  {
    var j := SegmentOfPacket(msg, skbs, seg, p);
    var k := SegmentOfPacket(msg, skbs, seg, q);
    SegmentsAuthentic(msg, skbs[j].offset, skbs[j].dataBytes, seg);
    SegmentsAuthentic(msg, skbs[k].offset, skbs[k].dataBytes, seg);
    if j < k { PacketsInOrder(skbs, msg, seg, hijack, j, k); }
    if k < j { PacketsInOrder(skbs, msg, seg, hijack, k, j); }
    SegmentsDisjoint(msg, skbs[j].offset, skbs[j].dataBytes, seg, p, q, i);
  }

  lemma {:induction false} MeetingMembers(ps: seq<DataPkt>, start: int, end: int, p: DataPkt)
    ensures p in Meeting(ps, start, end) <==> p in ps && Meets(p, start, end)
  {
    if ps != [] { MeetingMembers(ps[1..], start, end, p); }
  }
}
