/** Where the bytes of an incoming message are stored: in bpages of the
    application's buffer region, the last of which may be shared with other
    messages. Both the kernel and the application compute these places. */
module Buffers {

  const HOMA_BPAGE_SIZE := 65536

  /** Number of bpages for a message. */
  function PagesFor(length: nat): (n: nat)
    ensures n * HOMA_BPAGE_SIZE >= length
    ensures length > 0 ==> (n - 1) * HOMA_BPAGE_SIZE < length
  {
    (length + HOMA_BPAGE_SIZE - 1) / HOMA_BPAGE_SIZE
  }

  /** Bytes of the message in its `k`-th bpage. */
  function ChunkSize(length: nat, k: nat): int {
    if (k + 1) * HOMA_BPAGE_SIZE <= length then HOMA_BPAGE_SIZE else length - k * HOMA_BPAGE_SIZE
  }

  /** The buffers of a message lie in the region and do not overlap. */
  ghost predicate BuffersOk(offsets: seq<nat>, length: nat, regionSize: nat) {
    && |offsets| == PagesFor(length)
    && (forall k :: 0 <= k < |offsets| ==> offsets[k] + ChunkSize(length, k) <= regionSize)
    && (forall k, l :: 0 <= k < l < |offsets| ==>
          || offsets[k] + ChunkSize(length, k) <= offsets[l]
          || offsets[l] + ChunkSize(length, l) <= offsets[k])
  }

  /** Where byte `i` of the message belongs (0 for bytes without a bpage). */
  function AddrOf(offsets: seq<nat>, i: nat): nat {
    if i / HOMA_BPAGE_SIZE < |offsets| then offsets[i / HOMA_BPAGE_SIZE] + i % HOMA_BPAGE_SIZE else 0
  }

  /** Some byte of the message belongs at `a`. */
  predicate IsPlace(offsets: seq<nat>, length: nat, a: int) {
    exists i :: 0 <= i < length && AddrOf(offsets, i) == a
  }

  /** The kernel's computation: the place for the byte at `offset`, and how
      many bytes may be stored from there on. */
  function GetBuffer(offsets: seq<nat>, length: nat, offset: nat): (r: (nat, int))
    requires offset / HOMA_BPAGE_SIZE < |offsets|
  {
    var index := offset / HOMA_BPAGE_SIZE;
    var within := offset % HOMA_BPAGE_SIZE;
    (offsets[index] + within,
     if index < |offsets| - 1 then HOMA_BPAGE_SIZE - within else length - offset)
  }

  /** The application's count of contiguous bytes. */
  function Contiguous(offset: nat, length: int, numBpages: nat): int {
    if offset >= length then 0
    else if offset / HOMA_BPAGE_SIZE == numBpages - 1 then length - offset
    else HOMA_BPAGE_SIZE - offset % HOMA_BPAGE_SIZE
  }

  datatype Pointer = Null | At(addr: nat)

  /** The application's pointer to an object of `size` bytes at `offset`,
      without storage to copy it to. */
  function Get(offsets: seq<nat>, length: int, offset: nat, size: nat): Pointer
    requires 0 < size
    requires offset < length ==> offset / HOMA_BPAGE_SIZE < |offsets|
  {
    if offset + size > length then Null
    else if Contiguous(offset, length, |offsets|) >= size then
      At(offsets[offset / HOMA_BPAGE_SIZE] + offset % HOMA_BPAGE_SIZE)
    else Null
  }

  lemma PageBounds(offsets: seq<nat>, length: nat, i: nat)
    requires |offsets| == PagesFor(length) && i < length
    ensures i / HOMA_BPAGE_SIZE < |offsets|
    ensures i % HOMA_BPAGE_SIZE < ChunkSize(length, i / HOMA_BPAGE_SIZE)
  {
  }

  /** No two bytes of a message share a place, and all places are in the region. */
  lemma AddrInjective(offsets: seq<nat>, length: nat, regionSize: nat, i: nat, j: nat)
    requires BuffersOk(offsets, length, regionSize) && i < length && j < length
    ensures i / HOMA_BPAGE_SIZE < |offsets| && j / HOMA_BPAGE_SIZE < |offsets|
    ensures AddrOf(offsets, i) < regionSize
    ensures AddrOf(offsets, i) == AddrOf(offsets, j) ==> i == j
  {
    PageBounds(offsets, length, i);
    PageBounds(offsets, length, j);
    var k, l := i / HOMA_BPAGE_SIZE, j / HOMA_BPAGE_SIZE;
    if k < l { assert offsets[k] + ChunkSize(length, k) <= offsets[l] || offsets[l] + ChunkSize(length, l) <= offsets[k]; }
    if l < k { assert offsets[l] + ChunkSize(length, l) <= offsets[k] || offsets[k] + ChunkSize(length, k) <= offsets[l]; }
  }

  /** What the kernel may store in one piece is where it belongs. */
  lemma GetBufferFits(offsets: seq<nat>, length: nat, offset: nat)
    requires |offsets| == PagesFor(length) && offset < length
    ensures offset / HOMA_BPAGE_SIZE < |offsets|
    ensures var (addr, available) := GetBuffer(offsets, length, offset);
      && 0 < available <= length - offset
      && forall i :: offset <= i < offset + available ==> AddrOf(offsets, i) == addr + (i - offset)
  {
    PageBounds(offsets, length, offset);
    var (addr, available) := GetBuffer(offsets, length, offset);
    forall i | offset <= i < offset + available ensures AddrOf(offsets, i) == addr + (i - offset) {
      assert i / HOMA_BPAGE_SIZE == offset / HOMA_BPAGE_SIZE;
    }
  }

  /** A pointer given to the application leads to the bytes it asked for. It
      gets one exactly if the object lies within the message and within one
      bpage. */
  lemma GetFinds(offsets: seq<nat>, length: nat, offset: nat, size: nat)
    requires |offsets| == PagesFor(length) && 0 < size
    ensures offset < length ==> offset / HOMA_BPAGE_SIZE < |offsets|
    ensures var p := Get(offsets, length, offset, size);
      && (p.At? <==> offset + size <= length && offset / HOMA_BPAGE_SIZE == (offset + size - 1) / HOMA_BPAGE_SIZE)
      && (p.At? ==> forall i :: offset <= i < offset + size ==> AddrOf(offsets, i) == p.addr + (i - offset))
  {
    if offset < length {
      PageBounds(offsets, length, offset);
      GetBufferFits(offsets, length, offset);
      assert Contiguous(offset, length, |offsets|) == GetBuffer(offsets, length, offset).1;
    }
  }
}
