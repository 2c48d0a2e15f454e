/** Allocation of packet memory, and virtual copying between packets. */
module Skb {
  import opened Sequences
  import opened Wire
  import opened SkbState

  const MAX_SKB_FRAGS := 17
  const HOMA_PAGE_POOL_SIZE := 1000

  datatype AppendResult = Done | NoMemory | TooManyFrags

  /** What the system gives when it is asked for a page. */
  datatype Alloc = Big | Small | Nothing

  function AlignUp(n: nat): (m: nat)
    ensures n <= m < n + SMP_CACHE_BYTES && m % SMP_CACHE_BYTES == 0
    ensures forall k: nat :: n <= k * SMP_CACHE_BYTES ==> m <= k * SMP_CACHE_BYTES
  {
    var m := (n + SMP_CACHE_BYTES - 1) / SMP_CACHE_BYTES * SMP_CACHE_BYTES;
    m
  }

  /** How many pages a message needs, roughly; C divides towards zero. */
  function MaxStashed(length: nat): (n: nat)
    ensures if length == 0 then n == 1 else (n - 1) * HOMA_SKB_PAGE_SIZE < length <= n * HOMA_SKB_PAGE_SIZE
  {
    if length == 0 then 1 else (length - 1) / HOMA_SKB_PAGE_SIZE + 1
  }

  /** The bytes from `offset` on, up to `length` of them. */
  function Slice(s: seq<Byte>, offset: nat, length: nat): (r: seq<Byte>) {
    if offset >= |s| then []
    else if offset + length <= |s| then s[offset..offset + length]
    else s[offset..]
  }

  /** Pages keep what they contain. */
  ghost predicate MemGrows(mem: map<Page, seq<Byte>>, mem': map<Page, seq<Byte>>) {
    forall p :: p in mem ==> p in mem' && mem'[p] == mem[p]
  }

  /** Packet `s` has got `n` bytes more, at `at` in the page: a new fragment,
      or as part of its last one. */
  ghost predicate Extended(before: seq<Packet>, after: seq<Packet>, s: nat, page: Page, at: nat, n: nat)
    requires s < |before|
  {
    var q := before[s];
    || after == before[s := q.(frags := q.frags + [Frag(page, at, n)])]
    || (&& q.frags != [] && after == before[s := Grown(q, n)]
        && var f := q.frags[|q.frags| - 1]; f.page == page && f.offset + f.size == at)
  }

  ghost predicate SameContents(mem: map<Page, seq<Byte>>, before: seq<Packet>,
                               mem': map<Page, seq<Byte>>, after: seq<Packet>, except: nat)
    requires FragsOk(mem, before) && FragsOk(mem', after)
  {
    && |after| == |before|
    && forall i :: 0 <= i < |before| && i != except ==>
         after[i] == before[i] && Contents(mem', after[i]) == Contents(mem, before[i])
  }

  function Overwrite(page: seq<Byte>, at: nat, data: seq<Byte>): (r: seq<Byte>)
    requires at + |data| <= |page|
    ensures |r| == |page| && r[..at] == page[..at] && r[at..at + |data|] == data
  {
    page[..at] + data + page[at + |data|..]
  }

  /** Filling the new bytes changes the contents of no other fragment. */
  lemma {:induction false} Filled(mem: map<Page, seq<Byte>>, page: Page, at: nat, data: seq<Byte>, frags: seq<Frag>)
    requires page in mem && at + |data| <= |mem[page]| && AllInMem(mem, frags)
    requires forall k :: 0 <= k < |frags| && frags[k].page == page ==> frags[k].offset + frags[k].size <= at
    ensures AllInMem(mem[page := Overwrite(mem[page], at, data)], frags)
    ensures FragBytes(mem[page := Overwrite(mem[page], at, data)], frags) == FragBytes(mem, frags)
  {
    var r := Overwrite(mem[page], at, data);
    var mem' := mem[page := r];
    forall k | 0 <= k < |frags| ensures InMem(mem', frags[k]) && Bytes(mem', frags[k]) == Bytes(mem, frags[k]) {
      var f := frags[k];
      if f.page == page {
        assert r[f.offset..f.offset + f.size] == r[..at][f.offset..f.offset + f.size];
        assert mem[page][f.offset..f.offset + f.size] == mem[page][..at][f.offset..f.offset + f.size];
      }
    }
    FragBytesSame(mem, mem', frags);
  }

  /** The new bytes are filled: the packet has the data at its end, and all
      others are as before. */
  lemma FilledContents(mem: map<Page, seq<Byte>>, before: seq<Packet>, after: seq<Packet>, s: nat,
                       page: Page, at: nat, data: seq<Byte>)
    requires FragsOk(mem, before) && s < |before| && page in mem && at + |data| <= |mem[page]|
    requires Below(before, page, at) && Extended(before, after, s, page, at, |data|)
    ensures var mem' := mem[page := Overwrite(mem[page], at, data)];
      && FragsOk(mem', after) && SameContents(mem, before, mem', after, s)
      && after[s].head == before[s].head
      && Contents(mem', after[s]) == Contents(mem, before[s]) + data
  {
    var mem' := mem[page := Overwrite(mem[page], at, data)];
    forall i | 0 <= i < |before|
      ensures AllInMem(mem', before[i].frags) && FragBytes(mem', before[i].frags) == FragBytes(mem, before[i].frags)
    {
      Filled(mem, page, at, data, before[i].frags);
    }
    var q := before[s];
    if after == before[s := q.(frags := q.frags + [Frag(page, at, |data|)])] {
      FragBytesMore(mem', q.frags, Frag(page, at, |data|));
      assert q.head + (FragBytes(mem, q.frags) + data) == q.head + FragBytes(mem, q.frags) + data;
    } else {
      GrownContents(mem', q, page, at, data);
    }
  }

  lemma Join(s: seq<Byte>, a: nat, b: nat, c: nat)
    requires a <= b <= c <= |s|
    ensures s[a..c] == s[a..b] + s[b..c]
  {
  }

  lemma RegroupFour(a: seq<Byte>, b: seq<Byte>, c: seq<Byte>, d: seq<Byte>)
    ensures a + (b + (c + d)) == a + (b + c) + d
  {
  }

  lemma GrownContents(mem: map<Page, seq<Byte>>, q: Packet, page: Page, at: nat, data: seq<Byte>)
    requires AllInMem(mem, q.frags) && q.frags != [] && page in mem && at + |data| <= |mem[page]|
    requires var f := q.frags[|q.frags| - 1]; f.page == page && f.offset + f.size == at
    requires mem[page][at..at + |data|] == data
    ensures AllInMem(mem, Grown(q, |data|).frags)
    ensures Contents(mem, Grown(q, |data|)) == Contents(mem, q) + data
  {
    hide Contents;
    var k := |q.frags| - 1;
    var f := q.frags[k];
    var front := q.frags[..k];
    assert q == Packet(q.head, front + [f]);
    assert Grown(q, |data|) == Packet(q.head, front + [f.(size := f.size + |data|)]);
    LastGrows(mem, q.head, front, f, data);
  }

  lemma LastGrows(mem: map<Page, seq<Byte>>, head: seq<Byte>, front: seq<Frag>, f: Frag, data: seq<Byte>)
    requires AllInMem(mem, front) && InMem(mem, f) && f.offset + f.size + |data| <= |mem[f.page]|
    requires mem[f.page][f.offset + f.size..f.offset + f.size + |data|] == data
    ensures var f' := f.(size := f.size + |data|);
      && AllInMem(mem, front + [f]) && AllInMem(mem, front + [f'])
      && Contents(mem, Packet(head, front + [f'])) == Contents(mem, Packet(head, front + [f])) + data
  {
    hide FragBytes;
    var f' := f.(size := f.size + |data|);
    FragBytesMore(mem, front, f);
    FragBytesMore(mem, front, f');
    Join(mem[f.page], f.offset, f.offset + f.size, f.offset + f.size + |data|);
    RegroupFour(head, FragBytes(mem, front), Bytes(mem, f), data);
  }

  class Heap {
    var mem: map<Page, seq<Byte>>
    var refs: map<Page, int>
    var packets: seq<Packet>
    var cores: seq<Core>
    var pools: seq<seq<Page>>
    var nextPage: Page
    var calls: nat
    const memory: nat -> Alloc          // what the system gives at each request
    ghost var holder: map<Page, Holder>

    ghost function View(): State
      reads this
    {
      State(mem, refs, holder, packets, cores, pools)
    }

    /** References agree with fragments and holders, and no fragment reaches
        into what a core has not given out. */
    ghost predicate Valid()
      reads this
    {
      Inv(View()) && forall p :: p in mem ==> p < nextPage
    }

    constructor (numCores: nat, memory: nat -> Alloc)
      ensures Valid() && packets == [] && mem == map[] && calls == 0 && this.memory == memory
      ensures |cores| == numCores && forall c :: 0 <= c < numCores ==> cores[c] == Core(None, 0, 0, [], 0)
    {
      mem, refs, holder, packets, nextPage, calls := map[], map[], map[], [], 0, 0;
      cores, pools := seq(numCores, _ => Core(None, 0, 0, [], 0)), [[]];
      this.memory := memory;
    }

    /** A new packet. */
    method NewTx(head: seq<Byte>) returns (s: nat)
      requires Valid()
      modifies this`packets
      ensures Valid() && s == |old(packets)| && packets == old(packets) + [Packet(head, [])]
    {
      NewPacketKeeps(View(), head);
      s := |packets|;
      packets := packets + [Packet(head, [])];
    }

    // ----- Allocation -----

    /** Gets another page for a core. */
    method PageAlloc(c: nat) returns (ok: bool)
      requires Valid() && c < |cores|
      modifies this`mem, this`refs, this`cores, this`pools, this`nextPage, this`calls, this`holder
      ensures Valid() && |cores| == |old(cores)| && MemGrows(old(mem), mem)
      ensures ok ==> cores[c].page.Some? && cores[c].inuse == 0 && 0 < cores[c].pageSize
      // The page comes from the first source that has one.
      ensures old(Reusable(c)) ==> ok && cores == old(cores)[c := old(cores[c]).(inuse := 0)] && pools == old(pools)
      ensures !old(Reusable(c)) && old(cores[c].stash) != [] ==>
        var n := |old(cores[c].stash)| - 1;
        && ok && cores[c].page == Some(old(cores[c].stash)[n]) && cores[c].stash == old(cores[c].stash)[..n]
        && pools == old(pools)
      ensures !old(Reusable(c)) && old(cores[c].stash) == [] && old(cores[c].pool < |pools| && pools[cores[c].pool] != []) ==>
        var i, n := old(cores[c].pool), |old(pools[cores[c].pool])| - 1;
        && ok && cores[c].page == Some(old(pools)[i][n]) && pools == old(pools)[i := old(pools)[i][..n]]
      ensures !old(Reusable(c)) && old(cores[c].stash) == [] && !old(cores[c].pool < |pools| && pools[cores[c].pool] != []) ==>
        && (ok <==> memory(calls) != Nothing) && calls == old(calls) + 1 && pools == old(pools)
        && (ok ==> cores[c].page == Some(old(nextPage))
                   && cores[c].pageSize == if memory(calls).Big? then HOMA_SKB_PAGE_SIZE else PAGE_SIZE)
    {
      hide Inv;
      KnownPage(View(), c);
      var page := cores[c].page;
      if page.Some? && refs[page.value] == 1 {
        RestartKeeps(View(), c);
        cores := cores[c := cores[c].(inuse := 0)];
        return true;
      }
      Drop(c);
      KnownPage(View(), c);
      if cores[c].stash != [] {
        FromStash(View(), c);
        var n := |cores[c].stash| - 1;
        var p := cores[c].stash[n];
        cores := cores[c := cores[c].(page := Some(p), pageSize := HOMA_SKB_PAGE_SIZE, inuse := 0,
                                      stash := cores[c].stash[..n])];
        holder := holder[p := ByCore(c)];
        return true;
      }
      var i := cores[c].pool;
      if pools[i] != [] {
        FromPool(View(), c);
        var n := |pools[i]| - 1;
        var p := pools[i][n];
        pools := pools[i := pools[i][..n]];
        cores := cores[c := cores[c].(page := Some(p), pageSize := HOMA_SKB_PAGE_SIZE, inuse := 0)];
        holder := holder[p := ByCore(c)];
        return true;
      }
      calls := calls + 1;
      match memory(calls) {
        case Big => NewPage(c, HOMA_SKB_PAGE_SIZE); ok := true;
        case Small => NewPage(c, PAGE_SIZE); ok := true;
        case Nothing => ok := false;
      }
    }

    /** Nobody but the core itself refers to its page. */
    ghost predicate Reusable(c: nat)
      requires c < |cores|
      reads this
    {
      cores[c].page.Some? && cores[c].page.value in refs && refs[cores[c].page.value] == 1
    }

    /** The core's reference to its page goes away. */
    method Drop(c: nat)
      requires Valid() && c < |cores|
      modifies this`refs, this`cores, this`holder
      ensures Valid() && |cores| == |old(cores)|
      ensures cores[c] == old(cores[c]).(page := None, pageSize := 0, inuse := 0)
    {
      hide Inv;
      KnownPage(View(), c);
      DropKeeps(View(), c);
      var page := cores[c].page;
      if page.Some? {
        refs := refs[page.value := refs[page.value] - 1];
        holder := holder[page.value := Nobody];
      }
      cores := cores[c := cores[c].(page := None, pageSize := 0, inuse := 0)];
    }

    method NewPage(c: nat, size: nat)
      requires Valid() && c < |cores| && cores[c].page.None? && (size == PAGE_SIZE || size == HOMA_SKB_PAGE_SIZE)
      modifies this`mem, this`refs, this`cores, this`nextPage, this`holder
      ensures Valid() && MemGrows(old(mem), mem)
      ensures cores == old(cores)[c := old(cores[c]).(page := Some(old(nextPage)), pageSize := size, inuse := 0)]
    {
      hide Inv;
      var bytes: seq<Byte> := seq(size, _ => 0);
      FromSystem(View(), c, nextPage, bytes);
      mem := mem[nextPage := bytes];
      refs := refs[nextPage := 1];
      holder := holder[nextPage := ByCore(c)];
      cores := cores[c := cores[c].(page := Some(nextPage), pageSize := size, inuse := 0)];
      nextPage := nextPage + 1;
    }

    /** The last fragment is the end of what the core has given out, and the
        page is not full. */
    ghost predicate CanGrow(c: nat, s: nat)
      requires c < |cores| && s < |packets|
      reads this
    {
      && packets[s].frags != [] && cores[c].inuse < cores[c].pageSize
      && var f := packets[s].frags[|packets[s].frags| - 1];
      cores[c].page == Some(f.page) && f.offset + f.size == cores[c].inuse
    }

    /** Makes room for up to `length` more bytes in a packet. The room is
        nowhere in use. */
    method ExtendFrags(c: nat, s: nat, length: nat) returns (ok: bool, page: Page, at: nat, actual: nat)
      requires Valid() && c < |cores| && s < |packets| && 0 < length
      modifies this`mem, this`refs, this`packets, this`cores, this`pools, this`nextPage, this`calls, this`holder
      ensures Valid() && |cores| == |old(cores)| && MemGrows(old(mem), mem)
      ensures ok ==> 0 < actual <= length && page in mem && at + actual <= |mem[page]|
      ensures ok ==> Extended(old(packets), packets, s, page, at, actual) && Below(old(packets), page, at)
      ensures !ok ==> packets == old(packets)
      // The last fragment grows if it can; otherwise there is an aligned new
      // one. As much is allocated as the page has.
      ensures old(CanGrow(c, s)) ==> ok && |packets[s].frags| == |old(packets[s].frags)|
      ensures ok && !old(CanGrow(c, s)) ==> |packets[s].frags| == |old(packets[s].frags)| + 1 && at % SMP_CACHE_BYTES == 0
      ensures ok ==> actual == length || at + actual == |mem[page]|
      // The core's page is used as long as there is room on it.
      ensures !old(CanGrow(c, s)) && AlignUp(old(cores[c].inuse)) < old(cores[c].pageSize) ==>
        ok && Some(page) == old(cores[c].page) && at == AlignUp(old(cores[c].inuse))
    {
      hide Inv, Below;
      KnownPage(View(), c);
      ok, page, at, actual := true, 0, 0, length;
      var core, q := cores[c], packets[s];
      if q.frags != [] {
        var f := q.frags[|q.frags| - 1];
        if core.page == Some(f.page) && core.inuse < core.pageSize && f.offset + f.size == core.inuse {
          if core.pageSize - core.inuse < actual {
            actual := core.pageSize - core.inuse;
          }
          UseMore(View(), c, core.inuse + actual);
          cores := cores[c := core.(inuse := core.inuse + actual)];
          GrowKeeps(View(), c, s, actual);
          packets := packets[s := Grow(q, actual)];
          page, at := f.page, core.inuse;
          return;
        }
      }
      var aligned := AlignUp(core.inuse);
      if aligned >= core.pageSize {
        ok := PageAlloc(c);
        if !ok {
          return;
        }
      } else {
        UseMore(View(), c, aligned);
        cores := cores[c := core.(inuse := aligned)];
      }
      page, at, actual := NewFrag(c, s, length);
    }

    /** A new fragment at the end of what the core has given out. */
    method NewFrag(c: nat, s: nat, length: nat) returns (page: Page, at: nat, actual: nat)
      requires Valid() && c < |cores| && s < |packets| && 0 < length
      requires cores[c].page.Some? && cores[c].inuse < cores[c].pageSize
      modifies this`refs, this`packets, this`cores
      ensures Valid() && |cores| == |old(cores)|
      ensures 0 < actual <= length && page in mem && at + actual <= |mem[page]|
      ensures at == old(cores[c].inuse) && Some(page) == old(cores[c].page)
      ensures packets == old(packets)[s := old(packets[s]).(frags := old(packets[s].frags) + [Frag(page, at, actual)])]
      ensures Below(old(packets), page, at) && (actual == length || at + actual == |mem[page]|)
    {
      hide Inv, Below;
      KnownPage(View(), c);
      var core, q := cores[c], packets[s];
      page, at, actual := core.page.value, core.inuse, length;
      if core.pageSize - core.inuse < actual {
        actual := core.pageSize - core.inuse;
      }
      UseMore(View(), c, at + actual);
      cores := cores[c := core.(inuse := at + actual)];
      NewFragFits(View(), c, at, actual);
      AddFragKeeps(View(), s, Frag(page, at, actual));
      packets := packets[s := q.(frags := q.frags + [Frag(page, at, actual)])];
      refs := refs[page := refs[page] + 1];
    }

    // ----- Data -----

    /** Appends data to a packet; without memory, only `done` bytes of it. */
    method AppendToFrag(c: nat, s: nat, data: seq<Byte>) returns (ok: bool, ghost done: nat)
      requires Valid() && c < |cores| && s < |packets|
      modifies this`mem, this`refs, this`packets, this`cores, this`pools, this`nextPage, this`calls, this`holder
      ensures Valid() && |cores| == |old(cores)|
      ensures SameContents(old(mem), old(packets), mem, packets, s) && packets[s].head == old(packets[s].head)
      ensures ok ==> Contents(mem, packets[s]) == old(Contents(mem, packets[s])) + data
      ensures !ok ==> done < |data| && Contents(mem, packets[s]) == old(Contents(mem, packets[s])) + data[..done]
    {
      hide Inv, Contents, Extended, Below;
      ghost var start := Contents(mem, packets[s]);
      done := 0;
      var length: nat := |data|;
      while length > 0
        invariant Valid() && |cores| == |old(cores)| && length <= |data| && done == |data| - length
        invariant SameContents(old(mem), old(packets), mem, packets, s) && packets[s].head == old(packets[s].head)
        invariant Contents(mem, packets[s]) == start + data[..done]
      {
        ghost var mem0, packets0 := mem, packets;
        var got, page, at, actual := ExtendFrags(c, s, length);
        GrownMem(mem0, mem, packets0);
        if !got {
          return false, done;
        }
        var chunk := data[|data| - length..|data| - length + actual];
        FilledContents(mem, packets0, packets, s, page, at, chunk);
        Write(page, at, chunk);
        assert data[..done + actual] == data[..done] + chunk;
        length := length - actual;
        done := done + actual;
      }
      assert data[..|data|] == data;
      ok := true;
    }

    /** Copies out part of a packet. */
    method Get(s: nat, offset: nat, length: nat) returns (dest: seq<Byte>)
      requires Valid() && s < |packets|
      ensures dest == Slice(Contents(mem, packets[s]), offset, length)
    {
      hide Inv, Contents, FragBytes, Slice;
      var p := packets[s];
      ghost var all := Contents(mem, p);
      var at: nat, left: nat := offset, length;
      dest := [];
      AllStart(mem, p);
      if at < |p.head| {
        var chunk := left;
        if chunk > |p.head| - at {
          chunk := |p.head| - at;
        }
        SliceStep(all, at, left, chunk);
        assert all[at..at + chunk] == p.head[at..at + chunk];
        dest := dest + p.head[at..at + chunk];
        at, left := at + chunk, left - chunk;
      }
      var fragOffset: nat := |p.head|;
      for k := 0 to |p.frags|
        invariant AllInMem(mem, p.frags[..k]) && fragOffset == |p.head| + |FragBytes(mem, p.frags[..k])|
        invariant left > 0 ==> at >= fragOffset
        invariant dest + Slice(all, at, left) == Slice(all, offset, length)
      {
        var f := p.frags[k];
        NextStart(mem, p, k);
        if left > 0 && at < fragOffset + f.size {
          var chunk := f.size - (at - fragOffset);
          if chunk > left {
            chunk := left;
          }
          var a := at - fragOffset;
          PieceOf(mem, p, k, a, chunk);
          SliceStep(all, at, left, chunk);
          var piece := mem[f.page][f.offset + a..f.offset + a + chunk];
          assert dest + (piece + Slice(all, at + chunk, left - chunk)) == dest + piece + Slice(all, at + chunk, left - chunk);
          dest := dest + piece;
          at, left := at + chunk, left - chunk;
        }
        fragOffset := fragOffset + f.size;
      }
      SliceEnd(all, at, left);
      assert dest + [] == dest;
    }

    /** Appends part of one packet to another: what is in fragments is shared,
        not copied. */
    method AppendFromSkb(c: nat, dst: nat, src: nat, offset: nat, length: nat) returns (r: AppendResult)
      requires Valid() && c < |cores| && dst < |packets| && src < |packets| && dst != src
      modifies this`mem, this`refs, this`packets, this`cores, this`pools, this`nextPage, this`calls, this`holder
      ensures Valid() && |cores| == |old(cores)|
      ensures SameContents(old(mem), old(packets), mem, packets, dst)
      ensures r.Done? ==>
        Contents(mem, packets[dst]) == old(Contents(mem, packets[dst])) + Slice(old(Contents(mem, packets[src])), offset, length)
      ensures r.TooManyFrags? ==> |packets[dst].frags| == MAX_SKB_FRAGS
      // It only fails if some of the bytes could not be appended.
      ensures !r.Done? ==>
        |Contents(mem, packets[dst])| < |old(Contents(mem, packets[dst])) + Slice(old(Contents(mem, packets[src])), offset, length)|
    {
      hide Inv, Contents, FragBytes, Slice;
      var p := packets[src];
      ghost var all, start := Contents(mem, p), Contents(mem, packets[dst]);
      var at: nat, left: nat := offset, length;
      AllStart(mem, p);
      ghost var copied := [];
      if at < |p.head| {
        var chunk := left;
        if chunk > |p.head| - at {
          chunk := |p.head| - at;
        }
        SliceStep(all, at, left, chunk);
        copied := all[at..at + chunk];
        assert copied == p.head[at..at + chunk];
        var ok, _ := AppendToFrag(c, dst, p.head[at..at + chunk]);
        if !ok {
          return NoMemory;
        }
        at, left := at + chunk, left - chunk;
      }
      ghost var middle, mem1 := packets, mem;
      assert Contents(mem, packets[dst]) == start + copied;
      AllStart(mem, p);
      r := ShareFrags(dst, src, at, left);
      if r.Done? {
        assert start + copied + Slice(all, at, left) == start + (copied + Slice(all, at, left));
      }
    }

    /** The fragments' part of the above. */
    method ShareFrags(dst: nat, src: nat, offset: nat, length: nat) returns (r: AppendResult)
      requires Valid() && dst < |packets| && src < |packets| && dst != src
      requires length > 0 ==> offset >= |packets[src].head|
      modifies this`refs, this`packets
      ensures Valid() && SameContents(mem, old(packets), mem, packets, dst)
      ensures r.Done? ==>
        Contents(mem, packets[dst]) == old(Contents(mem, packets[dst])) + Slice(Contents(mem, packets[src]), offset, length)
      ensures !r.NoMemory? && (r.TooManyFrags? ==> |packets[dst].frags| == MAX_SKB_FRAGS)
      ensures |old(packets)[dst].frags| <= MAX_SKB_FRAGS ==> |packets[dst].frags| <= MAX_SKB_FRAGS
      ensures r.TooManyFrags? ==>
        |Contents(mem, packets[dst])| < |old(Contents(mem, packets[dst])) + Slice(Contents(mem, packets[src]), offset, length)|
    {
      hide Inv, Contents, FragBytes, Slice;
      var p := packets[src];
      ghost var all, start := Contents(mem, p), Contents(mem, packets[dst]);
      var at: nat, left: nat, fragOffset: nat := offset, length, |p.head|;
      AllStart(mem, p);
      for k := 0 to |p.frags|
        invariant Valid() && SameContents(mem, old(packets), mem, packets, dst)
        invariant AllInMem(mem, p.frags[..k]) && fragOffset == |p.head| + |FragBytes(mem, p.frags[..k])|
        invariant left > 0 ==> at >= fragOffset
        invariant |old(packets)[dst].frags| <= MAX_SKB_FRAGS ==> |packets[dst].frags| <= MAX_SKB_FRAGS
        invariant Contents(mem, packets[dst]) + Slice(all, at, left) == start + Slice(all, offset, length)
      {
        var f := p.frags[k];
        NextStart(mem, p, k);
        if left > 0 && at < fragOffset + f.size {
          var chunk := f.size - (at - fragOffset);
          if chunk > left {
            chunk := left;
          }
          if |packets[dst].frags| == MAX_SKB_FRAGS {
            PieceOf(mem, p, k, at - fragOffset, chunk);
            SliceStep(all, at, left, chunk);
            return TooManyFrags;
          }
          ghost var now := Contents(mem, packets[dst]);
          PieceOf(mem, p, k, at - fragOffset, chunk);
          SliceStep(all, at, left, chunk);
          ShareFrag(dst, src, k, at - fragOffset, chunk);
          ghost var piece := all[at..at + chunk];
          assert now + (piece + Slice(all, at + chunk, left - chunk)) == now + piece + Slice(all, at + chunk, left - chunk);
          at, left := at + chunk, left - chunk;
        }
        fragOffset := fragOffset + f.size;
      }
      SliceEnd(all, at, left);
      assert Contents(mem, packets[dst]) + [] == Contents(mem, packets[dst]);
      return Done;
    }

    /** A fragment that shares part of another. */
    method ShareFrag(dst: nat, src: nat, k: nat, a: nat, n: nat)
      requires Valid() && dst < |packets| && src < |packets| && dst != src
      requires k < |packets[src].frags| && a + n <= packets[src].frags[k].size
      modifies this`refs, this`packets
      ensures Valid() && |packets| == |old(packets)|
      ensures forall i :: 0 <= i < |packets| && i != dst ==> packets[i] == old(packets)[i]
      ensures |packets[dst].frags| == |old(packets)[dst].frags| + 1
      ensures AllInMem(mem, old(packets)[dst].frags) && InMem(mem, packets[src].frags[k])
      ensures var f := packets[src].frags[k];
        Contents(mem, packets[dst]) == old(Contents(mem, packets[dst])) + mem[f.page][f.offset + a..f.offset + a + n]
    {
      hide Inv, FragBytes;
      var f := packets[src].frags[k];
      var g := Frag(f.page, f.offset + a, n);
      ShareFits(View(), src, k, a, n);
      AddFragKeeps(View(), dst, g);
      var q := packets[dst];
      FragBytesMore(mem, q.frags, g);
      packets := packets[dst := q.(frags := q.frags + [g])];
      refs := refs[f.page := refs[f.page] + 1];
      assert q.head + (FragBytes(mem, q.frags) + Bytes(mem, g)) == q.head + FragBytes(mem, q.frags) + Bytes(mem, g);
    }

    // ----- Freeing -----

    /** Frees a packet; large pages that are not in use any more go to the pool
        of their node. */
    method FreeTx(s: nat, node: Page -> nat)
      requires Valid() && s < |packets| && forall p :: node(p) < |pools|
      modifies this`refs, this`packets, this`pools, this`holder
      ensures Valid() && packets == old(packets)[s := Packet([], [])]
    {
      hide Inv;
      while packets[s].frags != []
        invariant Valid() && |packets| == |old(packets)| && |pools| == |old(pools)|
        invariant forall i :: 0 <= i < |packets| && i != s ==> packets[i] == old(packets)[i]
        decreases |packets[s].frags|
      {
        DropFrag(s, node);
      }
      EmptyKeeps(View(), s);
      packets := packets[s := Packet([], [])];
    }

    method DropFrag(s: nat, node: Page -> nat)
      requires Valid() && s < |packets| && packets[s].frags != [] && forall p :: node(p) < |pools|
      modifies this`refs, this`packets, this`pools, this`holder
      ensures Valid() && |pools| == |old(pools)|
      ensures packets == old(packets)[s := old(packets[s]).(frags := old(packets[s]).frags[1..])]
      ensures var p := old(packets[s]).frags[0].page;
        && p in old(mem) && p in old(refs)
        && var cache := |old(mem)[p]| == HOMA_SKB_PAGE_SIZE && old(refs)[p] == 1 && |old(pools)[node(p)]| < HOMA_PAGE_POOL_SIZE;
        && pools == (if cache then old(pools)[node(p) := old(pools)[node(p)] + [p]] else old(pools))
        && refs == old(refs)[p := if cache then 1 else old(refs)[p] - 1]
    {
      hide Inv;
      var p := packets[s].frags[0].page;
      InUse(View(), s, 0);
      UnlinkKeeps(View(), s);
      var cache := |mem[p]| == HOMA_SKB_PAGE_SIZE && refs[p] == 1 && |pools[node(p)]| < HOMA_PAGE_POOL_SIZE;
      packets := packets[s := packets[s].(frags := packets[s].frags[1..])];
      refs := refs[p := refs[p] - 1];
      if cache {
        var i := node(p);
        CacheKeeps(View(), p, i);
        pools := pools[i := pools[i] + [p]];
        refs := refs[p := 1];
        holder := holder[p := InPool(i)];
      }
    }

    /** Sets pages aside for a message. */
    method StashPages(c: nat, length: nat)
      requires Valid() && c < |cores|
      modifies this`cores, this`pools, this`holder
      ensures Valid() && |cores| == |old(cores)| && |pools| == |old(pools)|
      ensures old(cores[c].pool) < |old(pools)|
      ensures var i, before, needed := old(cores[c].pool), old(cores[c].stash), MaxStashed(length);
        // No page is lost, and enough are set aside as far as there are any.
        && cores[c] == old(cores[c]).(stash := cores[c].stash) && Moved(old(pools)[i], before, pools[i], cores[c].stash)
        && (needed < 2 || |before| >= needed ==> cores[c].stash == before)
        && (2 <= needed && |before| < needed ==> |cores[c].stash| == needed || (|cores[c].stash| < needed && pools[i] == []))
        // Together they are enough for a message that needs more than one.
        && (length > HOMA_SKB_PAGE_SIZE && pools[i] != [] ==> length <= |cores[c].stash| * HOMA_SKB_PAGE_SIZE)
    {
      hide Inv, Moved;
      KnownPage(View(), c);
      var needed := MaxStashed(length);
      MovedNone(pools[cores[c].pool], cores[c].stash);
      if needed < 2 || |cores[c].stash| >= needed {
        return;
      }
      var i := cores[c].pool;
      while pools[i] != [] && |cores[c].stash| < needed
        invariant Valid() && |cores| == |old(cores)| && |pools| == |old(pools)|
        invariant cores[c] == old(cores[c]).(stash := cores[c].stash) && |cores[c].stash| <= needed
        invariant Moved(old(pools)[i], old(cores[c].stash), pools[i], cores[c].stash)
        decreases |pools[i]|
      {
        MovedMore(old(pools)[i], old(cores[c].stash), pools[i], cores[c].stash);
        StashOne(c);
      }
    }

    method StashOne(c: nat)
      requires Valid() && c < |cores| && cores[c].pool < |pools| && pools[cores[c].pool] != []
      modifies this`cores, this`pools, this`holder
      ensures Valid()
      ensures var i := old(cores[c].pool);
        var n := |old(pools)[i]| - 1;
        && cores == old(cores)[c := old(cores[c]).(stash := old(cores[c].stash) + [old(pools)[i][n]])]
        && pools == old(pools)[i := old(pools)[i][..n]]
    {
      hide Inv;
      StashKeeps(View(), c);
      var i := cores[c].pool;
      var n := |pools[i]| - 1;
      var p := pools[i][n];
      pools := pools[i := pools[i][..n]];
      cores := cores[c := cores[c].(stash := cores[c].stash + [p])];
      holder := holder[p := InStash(c)];
    }

    method Write(page: Page, at: nat, data: seq<Byte>)
      requires Valid() && page in mem && at + |data| <= |mem[page]|
      modifies this`mem
      ensures Valid() && mem == old(mem)[page := Overwrite(old(mem)[page], at, data)]
    {
      hide Inv;
      WriteKeeps(View(), page, Overwrite(mem[page], at, data));
      mem := mem[page := Overwrite(mem[page], at, data)];
    }
  }

  // ----- Facts used above -----

  /** Pages from the end of a pool have gone to the end of a stash. */
  ghost predicate Moved(pool: seq<Page>, stash: seq<Page>, pool': seq<Page>, stash': seq<Page>) {
    && pool' <= pool && stash <= stash' && |pool'| + |stash'| == |pool| + |stash|
    && forall k :: |stash| <= k < |stash'| ==> stash'[k] == pool[|pool| - 1 - (k - |stash|)]
  }

  lemma MovedNone(pool: seq<Page>, stash: seq<Page>)
    ensures Moved(pool, stash, pool, stash)
  {
  }

  lemma MovedMore(pool: seq<Page>, stash: seq<Page>, pool': seq<Page>, stash': seq<Page>)
    requires Moved(pool, stash, pool', stash') && pool' != []
    ensures Moved(pool, stash, pool'[..|pool'| - 1], stash' + [pool'[|pool'| - 1]])
  {
  }

  /** Copying `chunk` bytes leaves the rest of the slice. */
  lemma SliceStep(s: seq<Byte>, offset: nat, length: nat, chunk: nat)
    requires offset + chunk <= |s| && chunk <= length
    ensures Slice(s, offset, length) == s[offset..offset + chunk] + Slice(s, offset + chunk, length - chunk)
  {
  }

  lemma SliceEnd(s: seq<Byte>, offset: nat, length: nat)
    requires length == 0 || offset >= |s|
    ensures Slice(s, offset, length) == []
  {
  }

  /** Where the fragments are in the contents. */
  lemma {:induction false} FragPrefix(mem: map<Page, seq<Byte>>, frags: seq<Frag>, k: nat)
    requires AllInMem(mem, frags) && k < |frags|
    ensures AllInMem(mem, frags[..k]) && AllInMem(mem, frags[..k + 1])
    ensures FragBytes(mem, frags[..k + 1]) == FragBytes(mem, frags[..k]) + Bytes(mem, frags[k])
    ensures FragBytes(mem, frags[..k + 1]) <= FragBytes(mem, frags)
    decreases |frags|
  {
    hide FragBytes;
    assert frags[..k + 1] == frags[..k] + [frags[k]];
    FragBytesMore(mem, frags[..k], frags[k]);
    if k < |frags| - 1 {
      var n := |frags| - 1;
      var front := frags[..n];
      assert frags == front + [frags[n]];
      FragBytesMore(mem, front, frags[n]);
      assert front[..k + 1] == frags[..k + 1];
      FragPrefix(mem, front, k);
    } else {
      assert frags[..k + 1] == frags;
    }
  }

  /** A piece of a fragment is a piece of the contents. */
  lemma PieceOf(mem: map<Page, seq<Byte>>, p: Packet, k: nat, a: nat, n: nat)
    requires AllInMem(mem, p.frags) && k < |p.frags| && a + n <= p.frags[k].size
    ensures AllInMem(mem, p.frags[..k]) && InMem(mem, p.frags[k])
    ensures var start := |p.head| + |FragBytes(mem, p.frags[..k])|;
      var f := p.frags[k];
      && start + a + n <= |Contents(mem, p)|
      && Contents(mem, p)[start + a..start + a + n] == mem[f.page][f.offset + a..f.offset + a + n]
  {
    hide FragBytes;
    FragPrefix(mem, p.frags, k);
    var f := p.frags[k];
    var all, before, upto := FragBytes(mem, p.frags), FragBytes(mem, p.frags[..k]), FragBytes(mem, p.frags[..k + 1]);
    var after := all[|upto|..];
    assert all == upto + after;
    assert Contents(mem, p) == (p.head + before) + Bytes(mem, f) + after;
    Within(p.head + before, Bytes(mem, f), after, a, n);
    SubSlice(mem[f.page], f.offset, f.size, a, n);
  }

  lemma Within(x: seq<Byte>, y: seq<Byte>, z: seq<Byte>, i: nat, n: nat)
    requires i + n <= |y|
    ensures (x + y + z)[|x| + i..|x| + i + n] == y[i..i + n]
  {
  }

  lemma SubSlice(s: seq<Byte>, offset: nat, size: nat, a: nat, n: nat)
    requires offset + size <= |s| && a + n <= size
    ensures s[offset..offset + size][a..a + n] == s[offset + a..offset + a + n]
  {
    var x, y := s[offset..offset + size][a..a + n], s[offset + a..offset + a + n];
    forall i | 0 <= i < n ensures x[i] == y[i] {}
  }

  lemma NextStart(mem: map<Page, seq<Byte>>, p: Packet, k: nat)
    requires AllInMem(mem, p.frags) && k < |p.frags|
    ensures AllInMem(mem, p.frags[..k]) && AllInMem(mem, p.frags[..k + 1])
    ensures |FragBytes(mem, p.frags[..k + 1])| == |FragBytes(mem, p.frags[..k])| + p.frags[k].size
  {
    FragPrefix(mem, p.frags, k);
  }

  lemma AllStart(mem: map<Page, seq<Byte>>, p: Packet)
    requires AllInMem(mem, p.frags)
    ensures p.frags[..|p.frags|] == p.frags && |Contents(mem, p)| == |p.head| + |FragBytes(mem, p.frags)|
    ensures AllInMem(mem, p.frags[..0]) && FragBytes(mem, p.frags[..0]) == []
    ensures forall i :: 0 <= i < |p.head| ==> Contents(mem, p)[i] == p.head[i]
  {
    assert p.frags[..|p.frags|] == p.frags;
  }

  function Grow(p: Packet, n: nat): (q: Packet)
    requires p.frags != []
    ensures q == Grown(p, n)
  {
    var k := |p.frags| - 1;
    p.(frags := p.frags[k := p.frags[k].(size := p.frags[k].size + n)])
  }

  lemma KnownPage(t: State, c: nat)
    requires Inv(t) && c < |t.cores|
    ensures t.cores[c].pool < |t.pools| && t.cores[c].inuse <= t.cores[c].pageSize && t.cores[c].pageSize % SMP_CACHE_BYTES == 0
    ensures t.cores[c].page.Some? ==>
      var p := t.cores[c].page.value; p in t.mem && p in t.refs && p in t.holder && |t.mem[p]| == t.cores[c].pageSize > 0
    ensures t.cores[c].page.None? ==> t.cores[c].pageSize == 0
    ensures t.cores[c].page.Some? ==> Below(t.packets, t.cores[c].page.value, t.cores[c].inuse)
    ensures FragsOk(t.mem, t.packets)
  {
    assert CoreInv(t, c);
  }

  lemma NewPacketKeeps(t: State, head: seq<Byte>)
    requires Inv(t)
    ensures Inv(t.(packets := t.packets + [Packet(head, [])]))
  {
    var packets := t.packets + [Packet(head, [])];
    assert packets[..|t.packets|] == t.packets;
    forall c | 0 <= c < |t.cores| ensures CoreInv(t.(packets := packets), c) { assert CoreInv(t, c); }
  }

  lemma NewFragFits(t: State, c: nat, at: nat, n: nat)
    requires Inv(t) && c < |t.cores| && t.cores[c].page.Some? && at + n == t.cores[c].inuse
    ensures var f := Frag(t.cores[c].page.value, at, n);
      && InMem(t.mem, f) && OutOfStore(t, f.page)
      && forall d :: 0 <= d < |t.cores| && t.cores[d].page == Some(f.page) ==> f.offset + f.size <= t.cores[d].inuse
  {
    assert CoreInv(t, c);
    NotInStore(t, t.cores[c].page.value);
    forall d | 0 <= d < |t.cores| && t.cores[d].page == t.cores[c].page ensures d == c { assert CoreInv(t, d); }
  }

  lemma GrownMem(mem: map<Page, seq<Byte>>, mem': map<Page, seq<Byte>>, packets: seq<Packet>)
    requires FragsOk(mem, packets) && MemGrows(mem, mem')
    ensures FragsOk(mem', packets)
    ensures forall i :: 0 <= i < |packets| ==> Contents(mem', packets[i]) == Contents(mem, packets[i])
  {
    forall i | 0 <= i < |packets|
      ensures AllInMem(mem', packets[i].frags) && FragBytes(mem', packets[i].frags) == FragBytes(mem, packets[i].frags)
    {
      var frags := packets[i].frags;
      assert AllInMem(mem, frags);
      forall k | 0 <= k < |frags| ensures InMem(mem', frags[k]) && Bytes(mem', frags[k]) == Bytes(mem, frags[k]) {
        assert InMem(mem, frags[k]);
      }
      FragBytesSame(mem, mem', frags);
    }
  }

  lemma WriteKeeps(t: State, p: Page, bytes: seq<Byte>)
    requires Inv(t) && p in t.mem && |bytes| == |t.mem[p]|
    ensures Inv(t.(mem := t.mem[p := bytes]))
  {
    hide Total;
    var t' := t.(mem := t.mem[p := bytes]);
    forall s | 0 <= s < |t.packets| ensures AllInMem(t'.mem, t.packets[s].frags) {
      assert AllInMem(t.mem, t.packets[s].frags);
      forall k | 0 <= k < |t.packets[s].frags| ensures InMem(t'.mem, t.packets[s].frags[k]) {
        assert InMem(t.mem, t.packets[s].frags[k]);
      }
    }
    forall c | 0 <= c < |t.cores| ensures CoreInv(t', c) { assert CoreInv(t, c); }
  }

  lemma ShareFits(t: State, src: nat, k: nat, a: nat, n: nat)
    requires Inv(t) && src < |t.packets| && k < |t.packets[src].frags| && a + n <= t.packets[src].frags[k].size
    ensures var f := t.packets[src].frags[k];
      var g := Frag(f.page, f.offset + a, n);
      && InMem(t.mem, f) && InMem(t.mem, g) && OutOfStore(t, g.page)
      && forall c :: 0 <= c < |t.cores| && t.cores[c].page == Some(g.page) ==> g.offset + g.size <= t.cores[c].inuse
  {
    var f := t.packets[src].frags[k];
    InUse(t, src, k);
    assert InMem(t.mem, f) by { assert AllInMem(t.mem, t.packets[src].frags); }
    forall c | 0 <= c < |t.cores| && t.cores[c].page == Some(f.page) ensures f.offset + f.size <= t.cores[c].inuse {
      assert CoreInv(t, c);
      assert Below(t.packets, f.page, t.cores[c].inuse);
    }
  }

  lemma EmptyKeeps(t: State, s: nat)
    requires Inv(t) && s < |t.packets| && t.packets[s].frags == []
    ensures Inv(t.(packets := t.packets[s := Packet([], [])]))
  {
    hide Total, Count;
    var t' := t.(packets := t.packets[s := Packet([], [])]);
    forall x ensures Total(t'.packets, x) == Total(t.packets, x) {
      TotalUpdate(t.packets, s, Packet([], []), x);
    }
    forall c | 0 <= c < |t.cores| ensures CoreInv(t', c) { assert CoreInv(t, c); }
  }
}
