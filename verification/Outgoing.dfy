/** The sending side of a message: cutting it into GSO packets, the layout of
    those packets, and retransmission of single segments. */
module Outgoing {
  import opened Wire

  // ----- Segments -----

  /** Bytes in the first segment of `n`. */
  function First(n: nat, seg: nat): nat {
    if n < seg then n else seg
  }

  /** The segments of `msg[lo..lo + n]`: `seg` bytes each, the last may be
      shorter. */
  ghost function Segments(msg: seq<Byte>, lo: nat, n: nat, seg: nat): seq<DataPkt>
    requires lo + n <= |msg| && seg > 0
    decreases n
  {
    if n == 0 then []
    else [DataPkt(lo, msg[lo..lo + First(n, seg)])]
         + Segments(msg, lo + First(n, seg), n - First(n, seg), seg)
  }

  /** What a packet with several segments looks like without help from the
      network card, after the first segment header: a header with its offset
      precedes each further segment. */
  ghost function Body(msg: seq<Byte>, lo: nat, n: nat, seg: nat): seq<Byte>
    requires lo + n <= |msg| <= HOMA_MAX_MESSAGE_LENGTH && seg > 0
    decreases n, 0
  {
    if n <= seg then msg[lo..lo + n]
    else msg[lo..lo + seg] + Interleaved(msg, lo + seg, n - seg, seg)
  }

  ghost function Interleaved(msg: seq<Byte>, lo: nat, n: nat, seg: nat): seq<Byte>
    requires lo + n <= |msg| <= HOMA_MAX_MESSAGE_LENGTH && seg > 0
    decreases n, 1
  {
    Encode32(lo) + Body(msg, lo, n, seg)
  }

  /** Fills a packet in that layout; the first segment header is in the
      packet header already. */
  method FillInterleaved(msg: seq<Byte>, lo: nat, n: nat, segLength: nat) returns (body: seq<Byte>)
    requires lo + n <= |msg| <= HOMA_MAX_MESSAGE_LENGTH && segLength > 0
    ensures body == Body(msg, lo, n, segLength)
  {
    hide Encode32;
    var seg: nat, left: nat, offset: nat := segLength, n, lo;
    body := [];
    while true
      invariant seg == segLength && left <= n && offset == lo + n - left
      invariant body + Body(msg, offset, left, segLength) == Body(msg, lo, n, segLength)
      decreases left
    {
      if left < seg {
        seg := left;
      }
      ghost var before := body;
      body := body + msg[offset..offset + seg];
      left := left - seg;
      offset := offset + seg;
      if left == 0 {
        break;
      }
      Append4(before, msg[offset - seg..offset], Encode32(offset), Body(msg, offset, left, segLength));
      body := body + Encode32(offset);
    }
  }

  lemma Append4(a: seq<Byte>, b: seq<Byte>, c: seq<Byte>, d: seq<Byte>)
    ensures a + (b + (c + d)) == a + b + c + d
  {
  }

  /** Creates the packet for `msg[offset..offset + length]`. */
  method NewDataPacket(msg: seq<Byte>, offset: nat, length: nat, maxSegData: nat, hijack: bool) returns (skb: Skb)
    requires offset + length <= |msg| <= HOMA_MAX_MESSAGE_LENGTH && 0 < length && 0 < maxSegData
    ensures IsPacket(skb, msg, offset, length, maxSegData, hijack)
    ensures skb.offset == offset && skb.dataBytes == length
    ensures skb.gsoSegs == if length > maxSegData then |Segments(msg, offset, length, maxSegData)| else 0
  {
    var segs := (length + maxSegData - 1) / maxSegData;
    SegmentCount(length, maxSegData);
    CountSegments(msg, offset, length, maxSegData);
    skb := Skb(offset, length, maxSegData, offset, NO_OFFSET, [], DATA_HDR_LENGTH, 0, 0);
    var gsoSize := maxSegData;
    if segs > 1 && !hijack {
      gsoSize := maxSegData + SEG_HDR_LENGTH;
      var body := FillInterleaved(msg, offset, length, maxSegData);
      skb := skb.(doff := DATA_HDR_LENGTH - SEG_HDR_LENGTH, seg := Encode32(offset), body := body);
    } else {
      skb := skb.(body := msg[offset..offset + length]);
    }
    if segs > 1 {
      skb := skb.(gsoSegs := segs, gsoSize := gsoSize);
    }
  }

  /** The layout of a packet. */
  ghost predicate IsPacket(skb: Skb, msg: seq<Byte>, offset: nat, length: nat, seg: nat, hijack: bool)
    requires offset + length <= |msg| <= HOMA_MAX_MESSAGE_LENGTH && 0 < seg
  {
    && skb.offset == skb.sequence == offset && skb.dataBytes == length && skb.segLength == seg
    && (skb.gsoSegs > 1 <==> length > seg)
    && if length <= seg || hijack then
         && skb.doff == DATA_HDR_LENGTH && skb.seg == NO_OFFSET
         && skb.body == msg[offset..offset + length]
         && (length > seg ==> skb.gsoSize == seg)
       else
         && skb.doff == DATA_HDR_LENGTH - SEG_HDR_LENGTH && skb.seg == Encode32(offset)
         && skb.body == Body(msg, offset, length, seg)
         && skb.gsoSize == seg + SEG_HDR_LENGTH
  }

  /** Rounding up counts the segments. */
  lemma {:induction false} CountSegments(msg: seq<Byte>, lo: nat, n: nat, seg: nat)
    requires lo + n <= |msg| && seg > 0
    ensures |Segments(msg, lo, n, seg)| == (n + seg - 1) / seg
    decreases n
  {
    if n == 0 {
      SegmentsBelow(seg - 1, seg);
    } else if n <= seg {
      assert Segments(msg, lo + n, 0, seg) == [];
      OneMore(n - 1, seg);
      SegmentsBelow(n - 1, seg);
    } else {
      CountSegments(msg, lo + seg, n - seg, seg);
      OneMore(n - 1, seg);
    }
  }

  lemma OneMore(a: nat, b: nat)
    requires b > 0
    ensures (a + b) / b == a / b + 1
  {
    var q, r := a / b, a % b;
    assert a + b == (q + 1) * b + r;
    QuotientIs(a + b, b, q + 1, r);
  }

  lemma QuotientIs(a: nat, b: nat, q: nat, r: nat)
    requires b > 0 && a == q * b + r && r < b
    ensures a / b == q
  {
    var q' := a / b;
    assert q' * b <= a < q' * b + b;
    NextMultiple(q, q', b);
    NextMultiple(q', q, b);
  }

  lemma {:induction false} NextMultiple(x: nat, y: nat, b: nat)
    ensures x < y ==> x * b + b <= y * b
  {
    if x < y {
      assert y * b == (y - 1) * b + b;
      NextMultiple(x, y - 1, b);
    }
  }

  lemma SegmentsBelow(a: nat, b: nat)
    requires a < b
    ensures a / b == 0
  {
    QuotientIs(a, b, 0, a);
  }

  lemma SegmentCount(length: nat, seg: nat)
    requires 0 < length && 0 < seg
    ensures (length + seg - 1) / seg > 1 <==> length > seg
  {
    var q := (length + seg - 1) / seg;
    assert q * seg <= length + seg - 1 < q * seg + seg;
    if q > 1 { assert q * seg >= 2 * seg; }
    if q <= 1 { assert q * seg <= seg; }
  }

  // ----- Taking packets apart -----

  lemma {:induction false} SharedHeaderSegments(msg: seq<Byte>, lo: nat, n: nat, seg: nat)
    requires lo + n <= |msg| && 0 < n && 0 < seg
    ensures DecodeAll(SharedHeader(lo, NO_OFFSET, Chunks(msg[lo..lo + n], seg))) == Segments(msg, lo, n, seg)
    decreases n
  {
    var s := msg[lo..lo + n];
    if n <= seg {
      assert Chunks(s, seg)[1..] == [];
      assert Segments(msg, lo + n, 0, seg) == [];
    } else {
      assert s[..seg] == msg[lo..lo + seg] && s[seg..] == msg[lo + seg..lo + n];
      var rest := Chunks(s[seg..], seg);
      assert Chunks(s, seg)[1..] == rest;
      SharedHeaderSegments(msg, lo + seg, n - seg, seg);
      var w := SharedHeader(lo, NO_OFFSET, Chunks(s, seg));
      assert w[1..] == SharedHeader(lo + seg, NO_OFFSET, rest);
    }
  }

  lemma ChunksStep(piece: seq<Byte>, rest: seq<Byte>, n: nat)
    requires n == |piece| > 0 && |rest| > 0
    ensures Chunks(piece + rest, n) == [piece] + Chunks(rest, n)
  {
    assert (piece + rest)[..n] == piece && (piece + rest)[n..] == rest;
  }

  lemma OwnHeadersStep(first: nat, header: seq<Byte>, data: seq<Byte>, pieces: seq<seq<Byte>>)
    requires |header| == SEG_HDR_LENGTH
    ensures OwnHeaders(first, [header + data] + pieces) == [WirePkt(first, header, data)] + OwnHeaders(first, pieces)
  {
    assert ([header + data] + pieces)[1..] == pieces;
    assert (header + data)[..SEG_HDR_LENGTH] == header && (header + data)[SEG_HDR_LENGTH..] == data;
  }

  lemma DecodeStep(w: WirePkt, ws: seq<WirePkt>)
    ensures DecodeAll([w] + ws) == [Decode(w)] + DecodeAll(ws)
  {
    assert ([w] + ws)[1..] == ws;
  }

  lemma InterleavedSplit(msg: seq<Byte>, lo: nat, n: nat, seg: nat)
    requires lo + n <= |msg| <= HOMA_MAX_MESSAGE_LENGTH && 0 < seg
    ensures n <= seg ==> Interleaved(msg, lo, n, seg) == Encode32(lo) + msg[lo..lo + n]
    ensures n > seg ==>
      Interleaved(msg, lo, n, seg) == Encode32(lo) + msg[lo..lo + seg] + Interleaved(msg, lo + seg, n - seg, seg)
    ensures |Interleaved(msg, lo, n, seg)| > 0
  {
  }

  lemma {:induction false} OwnHeadersSegments(msg: seq<Byte>, first: nat, lo: nat, n: nat, seg: nat)
    requires lo + n <= |msg| <= HOMA_MAX_MESSAGE_LENGTH && 0 < n && 0 < seg
    ensures DecodeAll(OwnHeaders(first, Chunks(Interleaved(msg, lo, n, seg), seg + SEG_HDR_LENGTH)))
         == Segments(msg, lo, n, seg)
    decreases n
  {
    hide Encode32, Decode32, Interleaved, Body, OwnHeaders, DecodeAll;
    var header, data, size := Encode32(lo), msg[lo..lo + First(n, seg)], seg + SEG_HDR_LENGTH;
    EncodeRoundTrip(lo);
    InterleavedSplit(msg, lo, n, seg);
    var w := WirePkt(first, header, data);
    assert Decode(w) == DataPkt(lo, data);
    if n <= seg {
      assert Chunks(header + data, size) == [header + data] + [];
      OwnHeadersStep(first, header, data, []);
      NoPieces(first);
      DecodeStep(w, []);
      assert Segments(msg, lo + n, 0, seg) == [];
    } else {
      var rest := Interleaved(msg, lo + seg, n - seg, seg);
      InterleavedSplit(msg, lo + seg, n - seg, seg);
      ChunksStep(header + data, rest, size);
      OwnHeadersStep(first, header, data, Chunks(rest, size));
      DecodeStep(w, OwnHeaders(first, Chunks(rest, size)));
      OwnHeadersSegments(msg, first, lo + seg, n - seg, seg);
    }
  }

  lemma NoPieces(first: nat)
    ensures OwnHeaders(first, []) == [] && DecodeAll([]) == []
  {
  }

  /** In both layouts, segmentation and the receiver's reading of the offsets
      give back exactly the segments of the packet's part of the message. */
  lemma SegmentationRoundTrip(skb: Skb, msg: seq<Byte>, offset: nat, length: nat, seg: nat, hijack: bool)
    requires offset + length <= |msg| <= HOMA_MAX_MESSAGE_LENGTH && 0 < length && 0 < seg
    requires IsPacket(skb, msg, offset, length, seg, hijack)
    ensures DecodeAll(Segmented(skb)) == Segments(msg, offset, length, seg)
  {
    if length <= seg {
      assert Segmented(skb)[1..] == [];
      assert Segments(msg, offset + length, 0, seg) == [];
    } else if hijack {
      SharedHeaderSegments(msg, offset, length, seg);
    } else {
      OwnHeadersSegments(msg, offset, offset, length, seg);
    }
  }

  // ----- The geometry of a message -----

  /** Most message bytes that fit into one packet on the wire. */
  function MaxSegData(mtu: nat, ipHeader: nat): int {
    mtu - ipHeader - DATA_HDR_LENGTH
  }

  const TWO_TO_32 := 0x1_0000_0000
  const TWO_TO_64 := 0x1_0000_0000_0000_0000

  /** Nonnegative values of a C `int`. */
  type Int31 = n: nat | n < 0x8000_0000

  /** A C `int` from the low bits of a number. */
  function AsInt(x: nat): int {
    var low := x % TWO_TO_32;
    if low < 0x8000_0000 then low else low - TWO_TO_32
  }

  /** What a GSO packet of `gsoSize` bytes has room for beyond the headers. */
  function Room(gsoSize: Int31, ipHeader: Int31, hijack: bool): int {
    gsoSize - ipHeader - DATA_HDR_LENGTH + if hijack then 0 else SEG_HDR_LENGTH
  }

  /** How many full segments fit into a GSO packet, as the code computes it,
      with unsigned 64-bit numbers. */
  function SegsPerGso(gsoSize: Int31, ipHeader: Int31, seg: nat, hijack: bool): nat
    requires 0 < seg
  {
    var room := Room(gsoSize, ipHeader, hijack);
    (if room < 0 then room + TWO_TO_64 else room) / if hijack then seg else seg + SEG_HDR_LENGTH
  }

  /** Most message bytes in a GSO packet; at least one segment is tried. */
  function MaxGsoData(gsoSize: Int31, ipHeader: Int31, seg: nat, hijack: bool): int
    requires 0 < seg
  {
    var segs := SegsPerGso(gsoSize, ipHeader, seg, hijack);
    AsInt((if segs == 0 then 1 else segs) * seg)
  }

  /** With room for the headers, nothing wraps around. */
  lemma GsoDataFits(gsoSize: Int31, ipHeader: Int31, seg: Int31, hijack: bool)
    requires 0 < seg && 0 <= Room(gsoSize, ipHeader, hijack)
    ensures var segs := SegsPerGso(gsoSize, ipHeader, seg, hijack);
      MaxGsoData(gsoSize, ipHeader, seg, hijack) == (if segs == 0 then 1 else segs) * seg
    ensures MaxGsoData(gsoSize, ipHeader, seg, hijack) >= seg
  {
    hide AsInt, SegsPerGso, Room;
    SegsFit(gsoSize, ipHeader, seg, hijack);
    var segs := SegsPerGso(gsoSize, ipHeader, seg, hijack);
    AsIntSmall((if segs == 0 then 1 else segs) * seg);
  }

  lemma AsIntSmall(x: nat)
    ensures x < 0x8000_0000 ==> AsInt(x) == x
  {
  }

  /** The segments that fit take no more than there is room for. */
  lemma SegsFit(gsoSize: Int31, ipHeader: Int31, seg: Int31, hijack: bool)
    requires 0 < seg && 0 <= Room(gsoSize, ipHeader, hijack)
    ensures var segs := SegsPerGso(gsoSize, ipHeader, seg, hijack);
      segs > 0 ==> seg <= segs * seg < 0x8000_0000
  {
    var room, segs := Room(gsoSize, ipHeader, hijack), SegsPerGso(gsoSize, ipHeader, seg, hijack);
    var b := if hijack then seg else seg + SEG_HDR_LENGTH;
    assert segs == room / b;
    if segs > 0 {
      hide Room, SegsPerGso;
      DivBound(room, b, segs);
      Wider(segs, seg, b);
      NextMultiple(0, segs, seg);
    }
  }

  lemma {:induction false} Wider(n: nat, a: nat, b: nat)
    requires a <= b
    ensures n * a <= n * b
  {
    if n > 0 {
      Wider(n - 1, a, b);
      assert n * a == (n - 1) * a + a && n * b == (n - 1) * b + b;
    }
  }

  /** Without it, the result for hijacked TCP packets is negative. */
  lemma GsoDataNegative(gsoSize: Int31, ipHeader: Int31, seg: Int31)
    requires 0 < seg && Room(gsoSize, ipHeader, true) < 0 && ipHeader + DATA_HDR_LENGTH + seg <= 0x8000_0000
    ensures MaxGsoData(gsoSize, ipHeader, seg, true) < 0
  {
    var room, segs := Room(gsoSize, ipHeader, true), SegsPerGso(gsoSize, ipHeader, seg, true);
    var rem := (room + TWO_TO_64) % seg;
    assert room + TWO_TO_64 == segs * seg + rem;
    assert segs > 0 by { DivZero(room + TWO_TO_64, seg); }
    LowBits(segs * seg, room - rem);
  }

  lemma LowBits(x: nat, y: int)
    requires x == TWO_TO_64 + y && -0x8000_0000 <= y < 0
    ensures AsInt(x) == y
  {
    assert x == (TWO_TO_32 - 1) * TWO_TO_32 + (TWO_TO_32 + y);
  }

  /** Bytes of a GSO packet from the IP header on. */
  function GsoBytes(skb: Skb, ipHeader: nat): nat {
    ipHeader + DATA_HDR_LENGTH + |skb.body|
  }

  /** Packets for a message, none with more than `maxGsoData` bytes; or a loop
      that never ends. */
  datatype FillResult = InvalidLength | NoProgress | Packets(skbs: seq<Skb>, unscheduled: nat, maxGsoData: nat)

  /** The packet does not reach across the end of the unscheduled bytes, and
      is not too long. */
  ghost predicate WellCut(skb: Skb, unscheduled: nat, maxGsoData: nat) {
    && skb.dataBytes <= maxGsoData
    && !(skb.offset < unscheduled < skb.offset + skb.dataBytes)
  }

  /** The packet is as long as possible. */
  ghost predicate Full(skb: Skb, unscheduled: nat, maxGsoData: nat, length: nat) {
    skb.dataBytes == maxGsoData || skb.offset + skb.dataBytes == unscheduled || skb.offset + skb.dataBytes == length
  }

  /** The packets cover `msg[..end]` in order, without gaps or overlaps. */
  ghost predicate TilesTo(skbs: seq<Skb>, msg: seq<Byte>, end: nat, seg: nat, hijack: bool)
    requires |msg| <= HOMA_MAX_MESSAGE_LENGTH && 0 < seg
  {
    && (forall k :: 0 <= k < |skbs| ==>
          && 0 < skbs[k].dataBytes && skbs[k].offset + skbs[k].dataBytes <= |msg|
          && IsPacket(skbs[k], msg, skbs[k].offset, skbs[k].dataBytes, seg, hijack))
    && (forall k :: 0 <= k < |skbs| - 1 ==> skbs[k + 1].offset == skbs[k].offset + skbs[k].dataBytes)
    && (if skbs == [] then end == 0
        else skbs[0].offset == 0 && end == skbs[|skbs| - 1].offset + skbs[|skbs| - 1].dataBytes)
  }

  /** Bytes that the next packet gets, with `bytesLeft` to go. */
  function NextBytes(length: nat, bytesLeft: nat, unscheduled: nat, maxGsoData: int): int
    requires bytesLeft <= length
  {
    var offset := length - bytesLeft;
    var bytes := if offset < unscheduled && offset + maxGsoData > unscheduled then unscheduled - offset else maxGsoData;
    if bytes > bytesLeft then bytesLeft else bytes
  }

  /** Every packet takes some of the bytes exactly if packets may hold some. */
  lemma ProgressIf(length: nat, bytesLeft: nat, unscheduled: nat, maxGsoData: int)
    requires 0 < bytesLeft <= length
    ensures NextBytes(length, bytesLeft, unscheduled, maxGsoData) > 0 <==> maxGsoData > 0
  {
  }

  /** Cuts a message into GSO packets. */
  method MessageOutFill(msg: seq<Byte>, unschedBytes: nat, mtu: Int31, ipHeader: Int31,
                        devGsoSize: Int31, homaGsoSize: Int31, hijack: bool) returns (r: FillResult)
    requires MaxSegData(mtu, ipHeader) > 0
    ensures r.InvalidLength? <==> |msg| == 0 || |msg| > HOMA_MAX_MESSAGE_LENGTH
    ensures var gso := if devGsoSize > homaGsoSize then homaGsoSize else devGsoSize;
      r.NoProgress? <==> !r.InvalidLength? && MaxGsoData(gso, ipHeader, MaxSegData(mtu, ipHeader), hijack) <= 0
    ensures r.Packets? ==>
      var seg := MaxSegData(mtu, ipHeader);
      var gso := if devGsoSize > homaGsoSize then homaGsoSize else devGsoSize;
      && r.unscheduled == (if unschedBytes > |msg| then |msg| else unschedBytes)
      && TilesTo(r.skbs, msg, |msg|, seg, hijack)
      && (forall k :: 0 <= k < |r.skbs| ==>
            WellCut(r.skbs[k], r.unscheduled, r.maxGsoData) && Full(r.skbs[k], r.unscheduled, r.maxGsoData, |msg|))
      && r.maxGsoData == MaxGsoData(gso, ipHeader, seg, hijack)
      && (0 <= Room(gso, ipHeader, hijack) && SegsPerGso(gso, ipHeader, seg, hijack) >= 1 ==>
            forall k :: 0 <= k < |r.skbs| ==> GsoBytes(r.skbs[k], ipHeader) <= gso)
  {
    hide IsPacket, SegsPerGso, TilesTo, MaxGsoData, Room;
    var unscheduled := if unschedBytes > |msg| then |msg| else unschedBytes;
    if |msg| > HOMA_MAX_MESSAGE_LENGTH || |msg| == 0 {
      return InvalidLength;
    }
    var maxSegData := MaxSegData(mtu, ipHeader);
    var gsoSize := devGsoSize;
    if gsoSize > homaGsoSize {
      gsoSize := homaGsoSize;
    }
    var maxGsoData := MaxGsoData(gsoSize, ipHeader, maxSegData, hijack);
    if maxGsoData <= 0 {
      return NoProgress;
    }
    var skbs := CutPackets(msg, unscheduled, maxSegData, maxGsoData, hijack);
    if 0 <= Room(gsoSize, ipHeader, hijack) && SegsPerGso(gsoSize, ipHeader, maxSegData, hijack) >= 1 {
      GsoDataFits(gsoSize, ipHeader, maxSegData, hijack);
      AllPacketsFit(skbs, msg, maxSegData, hijack, gsoSize, ipHeader, SegsPerGso(gsoSize, ipHeader, maxSegData, hijack));
    }
    return Packets(skbs, unscheduled, maxGsoData);
  }

  /** The loop of the above: each iteration creates one GSO packet. */
  method CutPackets(msg: seq<Byte>, unscheduled: nat, maxSegData: nat, maxGsoData: nat, hijack: bool)
    returns (skbs: seq<Skb>)
    requires |msg| <= HOMA_MAX_MESSAGE_LENGTH && 0 < maxSegData && 0 < maxGsoData
    ensures TilesTo(skbs, msg, |msg|, maxSegData, hijack)
    ensures forall k :: 0 <= k < |skbs| ==>
      WellCut(skbs[k], unscheduled, maxGsoData) && Full(skbs[k], unscheduled, maxGsoData, |msg|)
  {
    hide IsPacket, TilesTo;
    TilesNothing(msg, maxSegData, hijack);
    var bytesLeft: nat := |msg|;
    skbs := [];
    while bytesLeft > 0
      invariant bytesLeft <= |msg|
      invariant TilesTo(skbs, msg, |msg| - bytesLeft, maxSegData, hijack)
      invariant forall k :: 0 <= k < |skbs| ==>
        WellCut(skbs[k], unscheduled, maxGsoData) && Full(skbs[k], unscheduled, maxGsoData, |msg|)
    {
      var bytes: int := maxGsoData;
      var offset := |msg| - bytesLeft;
      if offset < unscheduled && offset + bytes > unscheduled {
        bytes := unscheduled - offset;
      }
      if bytes > bytesLeft {
        bytes := bytesLeft;
      }
      assert bytes == NextBytes(|msg|, bytesLeft, unscheduled, maxGsoData);
      var skb := NewDataPacket(msg, offset, bytes, maxSegData, hijack);
      TilesOneMore(skbs, msg, offset, maxSegData, hijack, skb);
      bytesLeft := bytesLeft - bytes;
      skbs := skbs + [skb];
    }
  }

  lemma AllPacketsFit(skbs: seq<Skb>, msg: seq<Byte>, seg: nat, hijack: bool, gsoSize: Int31, ipHeader: Int31, q: nat)
    requires |msg| <= HOMA_MAX_MESSAGE_LENGTH && 0 < seg && TilesTo(skbs, msg, |msg|, seg, hijack)
    requires forall k :: 0 <= k < |skbs| ==> skbs[k].dataBytes <= q * seg
    requires 0 <= Room(gsoSize, ipHeader, hijack) && 1 <= q
    ensures q <= SegsPerGso(gsoSize, ipHeader, seg, hijack) ==>
      forall k :: 0 <= k < |skbs| ==> GsoBytes(skbs[k], ipHeader) <= gsoSize
  {
    hide IsPacket, SegsPerGso;
    forall k | 0 <= k < |skbs| && q <= SegsPerGso(gsoSize, ipHeader, seg, hijack)
      ensures GsoBytes(skbs[k], ipHeader) <= gsoSize
    {
      PacketFits(skbs[k], msg, skbs[k].offset, skbs[k].dataBytes, seg, hijack, gsoSize, ipHeader, q);
    }
  }

  lemma TilesNothing(msg: seq<Byte>, seg: nat, hijack: bool)
    requires |msg| <= HOMA_MAX_MESSAGE_LENGTH && 0 < seg
    ensures TilesTo([], msg, 0, seg, hijack)
  {
  }

  lemma TilesOneMore(skbs: seq<Skb>, msg: seq<Byte>, end: nat, seg: nat, hijack: bool, skb: Skb)
    requires |msg| <= HOMA_MAX_MESSAGE_LENGTH && 0 < seg && TilesTo(skbs, msg, end, seg, hijack)
    requires skb.offset == end && 0 < skb.dataBytes && end + skb.dataBytes <= |msg|
    requires IsPacket(skb, msg, end, skb.dataBytes, seg, hijack)
    ensures TilesTo(skbs + [skb], msg, end + skb.dataBytes, seg, hijack)
  {
    hide IsPacket;
  }

  /** Segment headers in between take no more room than was set aside. */
  lemma {:induction false} BodyBound(msg: seq<Byte>, lo: nat, n: nat, seg: nat, q: nat)
    requires lo + n <= |msg| <= HOMA_MAX_MESSAGE_LENGTH && 0 < seg && 1 <= q && n <= q * seg
    ensures |Body(msg, lo, n, seg)| <= q * (seg + SEG_HDR_LENGTH) - SEG_HDR_LENGTH
    decreases q
  {
    if n > seg {
      assert q == 1 ==> q * seg == seg;
      assert (q - 1) * seg == q * seg - seg;
      BodyBound(msg, lo + seg, n - seg, seg, q - 1);
      assert (q - 1) * (seg + SEG_HDR_LENGTH) == q * (seg + SEG_HDR_LENGTH) - (seg + SEG_HDR_LENGTH);
    } else {
      assert q * (seg + SEG_HDR_LENGTH) >= seg + SEG_HDR_LENGTH;
    }
  }

  /** A packet with no more segments than fit into a GSO packet fits. */
  lemma PacketFits(skb: Skb, msg: seq<Byte>, offset: nat, length: nat, seg: nat, hijack: bool,
                   gsoSize: Int31, ipHeader: Int31, q: nat)
    requires offset + length <= |msg| <= HOMA_MAX_MESSAGE_LENGTH && 0 < length && 0 < seg
    requires IsPacket(skb, msg, offset, length, seg, hijack)
    requires 0 <= Room(gsoSize, ipHeader, hijack) && 1 <= q && length <= q * seg
    ensures q <= SegsPerGso(gsoSize, ipHeader, seg, hijack) ==> GsoBytes(skb, ipHeader) <= gsoSize
  {
    if q <= SegsPerGso(gsoSize, ipHeader, seg, hijack) {
      var room := Room(gsoSize, ipHeader, hijack);
      if hijack {
        DivBound(room, seg, q);
      } else {
        DivBound(room, seg + SEG_HDR_LENGTH, q);
        BodyBound(msg, offset, length, seg, q);
      }
    }
  }

  lemma DivBound(a: nat, b: nat, q: nat)
    requires 0 < b && q <= a / b
    ensures q * b <= a
  {
    assert a / b * b <= a;
    assert q * b <= a / b * b;
  }

  /** When not even one full segment fits into a GSO packet, packets with one
      are made all the same, and exceed the limit. */
  lemma FullSegmentTooLong(skb: Skb, msg: seq<Byte>, offset: nat, seg: nat, hijack: bool, gsoSize: Int31, ipHeader: Int31)
    requires offset + seg <= |msg| <= HOMA_MAX_MESSAGE_LENGTH && 0 < seg
    requires IsPacket(skb, msg, offset, seg, seg, hijack)
    ensures Room(gsoSize, ipHeader, hijack) < 0 || SegsPerGso(gsoSize, ipHeader, seg, hijack) == 0 <==>
            GsoBytes(skb, ipHeader) > gsoSize
  {
    var room := Room(gsoSize, ipHeader, hijack);
    if room >= 0 {
      if hijack {
        assert room / seg == 0 <==> room < seg by { DivZero(room, seg); }
      } else {
        DivZero(room, seg + SEG_HDR_LENGTH);
      }
    }
  }

  /** No more segments fit: a GSO packet with one more than computed exceeds
      the limit. */
  lemma OneMoreTooLong(skb: Skb, msg: seq<Byte>, offset: nat, seg: nat, hijack: bool, gsoSize: Int31, ipHeader: Int31)
    requires 0 < seg && 0 <= Room(gsoSize, ipHeader, hijack)
    requires var q := SegsPerGso(gsoSize, ipHeader, seg, hijack) + 1;
      && offset + q * seg <= |msg| <= HOMA_MAX_MESSAGE_LENGTH
      && IsPacket(skb, msg, offset, q * seg, seg, hijack)
    ensures GsoBytes(skb, ipHeader) > gsoSize
  {
    var q, room := SegsPerGso(gsoSize, ipHeader, seg, hijack) + 1, Room(gsoSize, ipHeader, hijack);
    NextMultiple(0, q, seg);
    if hijack {
      DivAbove(room, seg);
    } else {
      DivAbove(room, seg + SEG_HDR_LENGTH);
      BodyLength(msg, offset, seg, q);
    }
  }

  lemma DivAbove(a: nat, b: nat)
    requires 0 < b
    ensures (a / b + 1) * b > a
  {
    assert a == a / b * b + a % b;
  }

  lemma {:induction false} BodyLength(msg: seq<Byte>, lo: nat, seg: nat, q: nat)
    requires 0 < seg && 1 <= q && lo + q * seg <= |msg| <= HOMA_MAX_MESSAGE_LENGTH
    ensures |Body(msg, lo, q * seg, seg)| == q * (seg + SEG_HDR_LENGTH) - SEG_HDR_LENGTH
    decreases q
  {
    if q > 1 {
      assert (q - 1) * seg == q * seg - seg;
      NextMultiple(0, q - 1, seg);
      BodyLength(msg, lo + seg, seg, q - 1);
      assert (q - 1) * (seg + SEG_HDR_LENGTH) == q * (seg + SEG_HDR_LENGTH) - (seg + SEG_HDR_LENGTH);
    } else {
      assert q * seg == seg;
    }
  }

  lemma DivZero(a: nat, b: nat)
    requires 0 < b
    ensures a / b == 0 <==> a < b
  {
    assert a == a / b * b + a % b;
    if a < b { assert a / b < 1; }
  }
}
