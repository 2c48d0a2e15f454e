/** Packets on the wire: the DATA header, the two layouts of GSO packets, and
    how they are taken apart into the packets that a receiver sees. */
module Wire {

  type Byte = b: int | 0 <= b < 256

  const DATA_HDR_LENGTH := 56      // homa_data_hdr, including its homa_seg_hdr
  const SEG_HDR_LENGTH := 4        // homa_seg_hdr
  const HOMA_MAX_MESSAGE_LENGTH := 1000000

  // ----- DATA packets as seen by the receiver -----

  /** A DATA packet after segmentation, with its true offset. */
  datatype DataPkt = DataPkt(offset: int, data: seq<Byte>)

  /** The packet carries its part of `msg`. */
  ghost predicate Authentic(p: DataPkt, msg: seq<Byte>) {
    && 0 <= p.offset && 0 < |p.data| && p.offset + |p.data| <= |msg|
    && p.data == msg[p.offset..p.offset + |p.data|]
  }

  ghost predicate Covers(p: DataPkt, i: int) {
    p.offset <= i < p.offset + |p.data|
  }

  // ----- Offsets in network byte order -----

  function Encode32(n: nat): (s: seq<Byte>)
    requires n < 0x1_0000_0000
    ensures |s| == SEG_HDR_LENGTH
  {
    [n / 0x100_0000, n / 0x1_0000 % 0x100, n / 0x100 % 0x100, n % 0x100]
  }

  function Decode32(s: seq<Byte>): nat
    requires |s| == SEG_HDR_LENGTH
  {
    var a: int, b: int, c: int, d: int := s[0], s[1], s[2], s[3];
    ((a * 0x100 + b) * 0x100 + c) * 0x100 + d
  }

  /** Marks a segment header whose offset is in the sequence field instead. */
  const NO_OFFSET: seq<Byte> := [0xff, 0xff, 0xff, 0xff]

  lemma EncodeRoundTrip(n: nat)
    requires n < 0x1_0000_0000
    ensures Decode32(Encode32(n)) == n
    ensures n < 0xffff_ffff ==> Encode32(n) != NO_OFFSET
  {
    var a, b, c := n / 0x100_0000, n / 0x1_0000, n / 0x100;
    assert c == b * 0x100 + c % 0x100 && b == a * 0x100 + b % 0x100 by {
      assert c / 0x100 == b && b / 0x100 == a;
    }
    assert n == c * 0x100 + n % 0x100;
    if Encode32(n) == NO_OFFSET { assert Decode32(NO_OFFSET) == 0xffff_ffff; }
  }

  // ----- Outgoing buffers -----

  /** An outgoing DATA packet. `sequence` and `seg` are fields of its header;
      `body` is what follows the header. `gsoSize` is meaningful if there is
      more than one segment. */
  datatype Skb = Skb(
    offset: nat, dataBytes: nat, segLength: nat,
    sequence: nat, seg: seq<Byte>, body: seq<Byte>,
    doff: nat, gsoSegs: nat, gsoSize: nat)

  /** One packet on the wire. */
  datatype WirePkt = WirePkt(sequence: nat, seg: seq<Byte>, data: seq<Byte>)

  /** `s` cut into pieces of `n` bytes, the last of which may be shorter. */
  function Chunks(s: seq<Byte>, n: nat): seq<seq<Byte>>
    requires n > 0
    decreases |s|
  {
    if |s| <= n then [s] else [s[..n]] + Chunks(s[n..], n)
  }

  /** Segmentation: the header up to `doff` is repeated in every packet. If it
      ends before the segment header, each piece brings its own; otherwise the
      sequence number is advanced by the bytes in the pieces before. */
  function Segmented(skb: Skb): seq<WirePkt>
    requires skb.gsoSegs > 1 ==> skb.gsoSize > 0
  {
    if skb.gsoSegs <= 1 then [WirePkt(skb.sequence, skb.seg, skb.body)]
    else if skb.doff < DATA_HDR_LENGTH then
      OwnHeaders(skb.sequence, Chunks(skb.seg + skb.body, skb.gsoSize))
    else
      SharedHeader(skb.sequence, skb.seg, Chunks(skb.body, skb.gsoSize))
  }

  function OwnHeaders(sequence: nat, pieces: seq<seq<Byte>>): seq<WirePkt> {
    if pieces == [] then []
    else
      var p := pieces[0];
      var cut := if |p| < SEG_HDR_LENGTH then |p| else SEG_HDR_LENGTH;
      [WirePkt(sequence, p[..cut], p[cut..])] + OwnHeaders(sequence, pieces[1..])
  }

  function SharedHeader(sequence: nat, seg: seq<Byte>, pieces: seq<seq<Byte>>): seq<WirePkt>
    decreases |pieces|
  {
    if pieces == [] then []
    else [WirePkt(sequence, seg, pieces[0])] + SharedHeader(sequence + |pieces[0]|, seg, pieces[1..])
  }

  /** The receiver's view of a packet: the offset comes from the segment
      header, or from the sequence number if there is none. */
  function Decode(w: WirePkt): DataPkt {
    DataPkt(if w.seg == NO_OFFSET || |w.seg| != SEG_HDR_LENGTH then w.sequence else Decode32(w.seg), w.data)
  }

  function DecodeAll(ws: seq<WirePkt>): seq<DataPkt> {
    if ws == [] then [] else [Decode(ws[0])] + DecodeAll(ws[1..])
  }

  // ----- RPC identifiers -----

  predicate IsClient(id: nat) {
    id % 2 == 0
  }

  /** The receiver's identifier for an RPC, given the sender's. */
  function LocalId(senderId: nat): nat {
    if senderId % 2 == 0 then senderId + 1 else senderId - 1
  }

  /** Exactly one end of an RPC is its client, and each end computes the
      other's identifier. */
  lemma LocalIdInverts(id: nat)
    ensures LocalId(LocalId(id)) == id
    ensures IsClient(LocalId(id)) <==> !IsClient(id)
    ensures IsClient(2 * id) && LocalId(2 * id) == 2 * id + 1
  {
  }
}
