/** Memory of outgoing packets: pages that are shared by the fragments of many
    packets, and who refers to them. */
module SkbState {
  import opened Sequences
  import opened Wire

  const PAGE_SIZE := 4096
  const HOMA_SKB_PAGE_SIZE := 65536
  const SMP_CACHE_BYTES := 64

  type Page = nat

  /** Part of a page that belongs to a packet. */
  datatype Frag = Frag(page: Page, offset: nat, size: nat)

  /** A packet: the bytes in its linear part, and its fragments. */
  datatype Packet = Packet(head: seq<Byte>, frags: seq<Frag>)

  /** A core fills its page from the beginning; `inuse` bytes are given out. */
  datatype Core = Core(page: Option<Page>, pageSize: nat, inuse: nat, stash: seq<Page>, pool: nat)

  /** Who keeps a page, apart from fragments. */
  datatype Holder = Nobody | ByCore(c: nat) | InStash(c: nat) | InPool(p: nat)

  datatype State = State(
    mem: map<Page, seq<Byte>>, refs: map<Page, int>, holder: map<Page, Holder>,
    packets: seq<Packet>, cores: seq<Core>, pools: seq<seq<Page>>)

  // ----- Contents -----

  ghost predicate InMem(mem: map<Page, seq<Byte>>, f: Frag) {
    f.page in mem && f.offset + f.size <= |mem[f.page]|
  }

  ghost predicate AllInMem(mem: map<Page, seq<Byte>>, frags: seq<Frag>) {
    forall k :: 0 <= k < |frags| ==> InMem(mem, frags[k])
  }

  ghost function Bytes(mem: map<Page, seq<Byte>>, f: Frag): (s: seq<Byte>)
    requires InMem(mem, f)
    ensures |s| == f.size
  {
    mem[f.page][f.offset..f.offset + f.size]
  }

  ghost function FragBytes(mem: map<Page, seq<Byte>>, frags: seq<Frag>): seq<Byte>
    requires AllInMem(mem, frags)
  {
    if frags == [] then []
    else FragBytes(mem, frags[..|frags| - 1]) + Bytes(mem, frags[|frags| - 1])
  }

  /** The contents of a packet, from the transport header on. */
  ghost function Contents(mem: map<Page, seq<Byte>>, p: Packet): seq<Byte>
    requires AllInMem(mem, p.frags)
  {
    p.head + FragBytes(mem, p.frags)
  }

  lemma FragBytesMore(mem: map<Page, seq<Byte>>, frags: seq<Frag>, f: Frag)
    requires AllInMem(mem, frags) && InMem(mem, f)
    ensures AllInMem(mem, frags + [f])
    ensures FragBytes(mem, frags + [f]) == FragBytes(mem, frags) + Bytes(mem, f)
  {
    assert (frags + [f])[..|frags|] == frags;
  }

  /** Memory may change where the fragments are not. */
  lemma {:induction false} FragBytesSame(mem: map<Page, seq<Byte>>, mem': map<Page, seq<Byte>>, frags: seq<Frag>)
    requires AllInMem(mem, frags)
    requires forall k :: 0 <= k < |frags| ==> InMem(mem', frags[k]) && Bytes(mem', frags[k]) == Bytes(mem, frags[k])
    ensures FragBytes(mem', frags) == FragBytes(mem, frags)
  {
    if frags != [] { FragBytesSame(mem, mem', frags[..|frags| - 1]); }
  }

  // ----- References -----

  ghost function Count(frags: seq<Frag>, p: Page): nat {
    if frags == [] then 0
    else Count(frags[..|frags| - 1], p) + if frags[|frags| - 1].page == p then 1 else 0
  }

  ghost function Total(packets: seq<Packet>, p: Page): nat {
    if packets == [] then 0
    else Total(packets[..|packets| - 1], p) + Count(packets[|packets| - 1].frags, p)
  }

  lemma CountMore(frags: seq<Frag>, f: Frag, p: Page)
    ensures Count(frags + [f], p) == Count(frags, p) + if f.page == p then 1 else 0
  {
    assert (frags + [f])[..|frags|] == frags;
  }

  lemma {:induction false} CountLess(frags: seq<Frag>, p: Page)
    requires frags != []
    ensures Count(frags[1..], p) == Count(frags, p) - if frags[0].page == p then 1 else 0
  {
    var n := |frags| - 1;
    if n > 0 {
      assert frags[..n][1..] == frags[1..][..n - 1];
      CountLess(frags[..n], p);
    } else {
      assert frags[..n] == [];
    }
  }

  lemma {:induction false} CountZero(frags: seq<Frag>, p: Page)
    ensures Count(frags, p) == 0 <==> forall k :: 0 <= k < |frags| ==> frags[k].page != p
  {
    if frags != [] { CountZero(frags[..|frags| - 1], p); }
  }

  lemma {:induction false} TotalUpdate(packets: seq<Packet>, s: nat, q: Packet, p: Page)
    requires s < |packets|
    ensures Total(packets[s := q], p) == Total(packets, p) - Count(packets[s].frags, p) + Count(q.frags, p)
  {
    var n := |packets| - 1;
    if s < n {
      assert packets[s := q][..n] == packets[..n][s := q];
      TotalUpdate(packets[..n], s, q, p);
    } else {
      assert packets[s := q][..n] == packets[..n];
    }
  }

  lemma {:induction false} TotalZero(packets: seq<Packet>, p: Page)
    ensures Total(packets, p) == 0 <==> forall s, k :: 0 <= s < |packets| && 0 <= k < |packets[s].frags| ==>
      packets[s].frags[k].page != p
  {
    if packets != [] {
      TotalZero(packets[..|packets| - 1], p);
      CountZero(packets[|packets| - 1].frags, p);
    }
  }

  // ----- Invariant -----

  ghost function Held(h: Holder): int {
    if h.Nobody? then 0 else 1
  }

  /** Fragments of the page end before `end`. */
  ghost predicate Below(packets: seq<Packet>, p: Page, end: int) {
    forall s, k :: 0 <= s < |packets| && 0 <= k < |packets[s].frags| && packets[s].frags[k].page == p ==>
      packets[s].frags[k].offset + packets[s].frags[k].size <= end
  }

  ghost predicate PagesOk(mem: map<Page, seq<Byte>>, refs: map<Page, int>, holder: map<Page, Holder>, packets: seq<Packet>) {
    && refs.Keys == mem.Keys && holder.Keys == mem.Keys
    && (forall p :: p in mem ==> |mem[p]| == PAGE_SIZE || |mem[p]| == HOMA_SKB_PAGE_SIZE)
    && (forall p :: p in mem ==> refs[p] == Total(packets, p) + Held(holder[p]))
  }

  ghost predicate FragsOk(mem: map<Page, seq<Byte>>, packets: seq<Packet>) {
    forall s :: 0 <= s < |packets| ==> AllInMem(mem, packets[s].frags)
  }

  ghost predicate CoreOk(mem: map<Page, seq<Byte>>, holder: map<Page, Holder>, packets: seq<Packet>, core: Core, c: nat) {
    match core.page
    case None => core.pageSize == 0 && core.inuse == 0
    case Some(p) =>
      && p in mem && p in holder && holder[p] == ByCore(c) && core.pageSize == |mem[p]| && core.inuse <= core.pageSize
      && Below(packets, p, core.inuse)
  }

  /** Pages in store are large and not in use. */
  ghost predicate StoreOk(mem: map<Page, seq<Byte>>, refs: map<Page, int>, holder: map<Page, Holder>, store: seq<Page>, h: Holder) {
    && Distinct(store)
    && forall k :: 0 <= k < |store| ==>
         && store[k] in mem && store[k] in holder && store[k] in refs
         && holder[store[k]] == h && |mem[store[k]]| == HOMA_SKB_PAGE_SIZE && refs[store[k]] == 1
  }

  ghost predicate Inv(t: State)
    ensures Inv(t) ==> FragsOk(t.mem, t.packets)
  {
    && PagesOk(t.mem, t.refs, t.holder, t.packets) && FragsOk(t.mem, t.packets)
    && (forall c :: 0 <= c < |t.cores| ==> CoreInv(t, c))
    && (forall p :: 0 <= p < |t.pools| ==> StoreOk(t.mem, t.refs, t.holder, t.pools[p], InPool(p)))
  }

  ghost predicate CoreInv(t: State, c: nat)
    requires c < |t.cores|
  {
    && CoreOk(t.mem, t.holder, t.packets, t.cores[c], c) && t.cores[c].pool < |t.pools|
    && StoreOk(t.mem, t.refs, t.holder, t.cores[c].stash, InStash(c))
  }

  // ----- Steps -----

  /** The holders of pages other than `p` are unaffected by a change to `p`. */
  ghost predicate SameBut(t: State, t': State, p: Page) {
    && t'.mem.Keys == t.mem.Keys + {p} && t'.refs.Keys == t'.mem.Keys && t'.holder.Keys == t'.mem.Keys
    && forall q :: q in t.mem && q != p ==>
         q in t.refs && q in t.holder && |t'.mem[q]| == |t.mem[q]| && t'.refs[q] == t.refs[q] && t'.holder[q] == t.holder[q]
  }

  lemma StoreSame(t: State, t': State, p: Page, store: seq<Page>, h: Holder)
    requires StoreOk(t.mem, t.refs, t.holder, store, h) && SameBut(t, t', p) && p !in store
    ensures StoreOk(t'.mem, t'.refs, t'.holder, store, h)
  {
  }

  /** A page that is in a store is known to be there. */
  lemma NotInStore(t: State, p: Page)
    requires Inv(t) && p in t.mem && (t.holder[p].Nobody? || t.holder[p].ByCore?)
    ensures OutOfStore(t, p)
  {
    forall c | 0 <= c < |t.cores| ensures p !in t.cores[c].stash { assert CoreInv(t, c); }
  }

  ghost predicate OutOfStore(t: State, p: Page) {
    && (forall c :: 0 <= c < |t.cores| ==> p !in t.cores[c].stash)
    && (forall i :: 0 <= i < |t.pools| ==> p !in t.pools[i])
  }

  /** References to `p` change by `n`, with its holder or a fragment. */
  lemma TotalsAfter(t: State, s: nat, q: Packet, p: Page, n: int)
    requires PagesOk(t.mem, t.refs, t.holder, t.packets) && s < |t.packets| && p in t.mem
    requires forall x :: Count(q.frags, x) == Count(t.packets[s].frags, x) + if x == p then n else 0
    ensures PagesOk(t.mem, t.refs[p := t.refs[p] + n], t.holder, t.packets[s := q])
  {
    hide Total, Count;
    forall x ensures Total(t.packets[s := q], x) == Total(t.packets, x) + if x == p then n else 0 {
      TotalUpdate(t.packets, s, q, x);
    }
  }

  /** A packet gets another fragment. */
  ghost function AddFrag(t: State, s: nat, f: Frag): State
    requires s < |t.packets| && f.page in t.refs
  {
    t.(packets := t.packets[s := t.packets[s].(frags := t.packets[s].frags + [f])],
       refs := t.refs[f.page := t.refs[f.page] + 1])
  }

  lemma AddFragKeeps(t: State, s: nat, f: Frag)
    requires Inv(t) && s < |t.packets| && InMem(t.mem, f) && OutOfStore(t, f.page)
    requires forall c :: 0 <= c < |t.cores| && t.cores[c].page == Some(f.page) ==> f.offset + f.size <= t.cores[c].inuse
    ensures f.page in t.refs && Inv(AddFrag(t, s, f))
  {
    hide Total, Count, StoreOk;
    var t' := AddFrag(t, s, f);
    var q := t.packets[s].(frags := t.packets[s].frags + [f]);
    forall x ensures Count(q.frags, x) == Count(t.packets[s].frags, x) + if x == f.page then 1 else 0 {
      CountMore(t.packets[s].frags, f, x);
    }
    TotalsAfter(t, s, q, f.page, 1);
    forall c | 0 <= c < |t'.cores| ensures CoreInv(t', c) {
      assert CoreInv(t, c);
      StoreSame(t, t', f.page, t.cores[c].stash, InStash(c));
    }
    forall i | 0 <= i < |t'.pools| ensures StoreOk(t'.mem, t'.refs, t'.holder, t'.pools[i], InPool(i)) {
      StoreSame(t, t', f.page, t.pools[i], InPool(i));
    }
  }

  /** A core counts more of its page as given out. */
  lemma UseMore(t: State, c: nat, inuse: nat)
    requires Inv(t) && c < |t.cores| && t.cores[c].inuse <= inuse <= t.cores[c].pageSize
    ensures Inv(t.(cores := t.cores[c := t.cores[c].(inuse := inuse)]))
  {
    var t' := t.(cores := t.cores[c := t.cores[c].(inuse := inuse)]);
    forall d | 0 <= d < |t'.cores| ensures CoreInv(t', d) { assert CoreInv(t, d); }
  }

  ghost function Grown(p: Packet, n: nat): Packet
    requires p.frags != []
  {
    var k := |p.frags| - 1;
    p.(frags := p.frags[k := p.frags[k].(size := p.frags[k].size + n)])
  }

  /** The last fragment of a packet, at the end of what its core has given
      out, grows. */
  lemma GrowKeeps(t: State, c: nat, s: nat, n: nat)
    requires Inv(t) && c < |t.cores| && s < |t.packets| && t.packets[s].frags != []
    requires var f := t.packets[s].frags[|t.packets[s].frags| - 1];
      t.cores[c].page == Some(f.page) && f.offset + f.size + n <= t.cores[c].inuse
    ensures Inv(t.(packets := t.packets[s := Grown(t.packets[s], n)]))
  {
    hide Total, Count, StoreOk;
    var q := Grown(t.packets[s], n);
    var t' := t.(packets := t.packets[s := q]);
    var f := t.packets[s].frags[|t.packets[s].frags| - 1];
    assert CoreInv(t, c);
    forall x ensures Count(q.frags, x) == Count(t.packets[s].frags, x) + if x == f.page then 0 else 0 {
      SamePages(t.packets[s].frags, q.frags, x);
    }
    TotalsAfter(t, s, q, f.page, 0);
    assert t.refs[f.page := t.refs[f.page] + 0] == t.refs;
    forall d | 0 <= d < |t'.cores| ensures CoreInv(t', d) { assert CoreInv(t, d); }
  }

  lemma {:induction false} SamePages(a: seq<Frag>, b: seq<Frag>, p: Page)
    requires |a| == |b| && forall k :: 0 <= k < |a| ==> a[k].page == b[k].page
    ensures Count(a, p) == Count(b, p)
  {
    if a != [] { SamePages(a[..|a| - 1], b[..|b| - 1], p); }
  }

  /** A core whose page nobody else uses starts it again. */
  lemma RestartKeeps(t: State, c: nat)
    requires Inv(t) && c < |t.cores| && t.cores[c].page.Some? && t.cores[c].page.value in t.refs
    requires t.refs[t.cores[c].page.value] == 1
    ensures Inv(t.(cores := t.cores[c := t.cores[c].(inuse := 0)]))
  {
    hide Total;
    var t' := t.(cores := t.cores[c := t.cores[c].(inuse := 0)]);
    assert CoreInv(t, c);
    TotalZero(t.packets, t.cores[c].page.value);
    forall d | 0 <= d < |t'.cores| ensures CoreInv(t', d) { assert CoreInv(t, d); }
  }

  /** A core gives up its page, if it has one. */
  ghost function Dropped(t: State, c: nat): State
    requires c < |t.cores| && (t.cores[c].page.Some? ==> t.cores[c].page.value in t.refs)
  {
    var core := t.cores[c].(page := None, pageSize := 0, inuse := 0);
    match t.cores[c].page
    case None => t.(cores := t.cores[c := core])
    case Some(p) =>
      t.(cores := t.cores[c := core], refs := t.refs[p := t.refs[p] - 1], holder := t.holder[p := Nobody])
  }

  lemma DropKeeps(t: State, c: nat)
    requires Inv(t) && c < |t.cores|
    ensures t.cores[c].page.Some? ==> t.cores[c].page.value in t.refs
    ensures Inv(Dropped(t, c))
  {
    hide Total, StoreOk;
    assert CoreInv(t, c);
    var t' := Dropped(t, c);
    if t.cores[c].page.Some? {
      var p := t.cores[c].page.value;
      NotInStore(t, p);
      forall d | 0 <= d < |t'.cores| ensures CoreInv(t', d) {
        assert CoreInv(t, d);
        StoreSame(t, t', p, t.cores[d].stash, InStash(d));
      }
      forall i | 0 <= i < |t'.pools| ensures StoreOk(t'.mem, t'.refs, t'.holder, t'.pools[i], InPool(i)) {
        StoreSame(t, t', p, t.pools[i], InPool(i));
      }
    } else {
      forall d | 0 <= d < |t'.cores| ensures CoreInv(t', d) { assert CoreInv(t, d); }
    }
  }

  /** A core without a page takes one from its stash. */
  lemma FromStash(t: State, c: nat)
    requires Inv(t) && c < |t.cores| && t.cores[c].page.None? && t.cores[c].stash != []
    ensures var n := |t.cores[c].stash| - 1;
      var p := t.cores[c].stash[n];
      Inv(t.(cores := t.cores[c := t.cores[c].(page := Some(p), pageSize := HOMA_SKB_PAGE_SIZE, inuse := 0,
                                               stash := t.cores[c].stash[..n])],
             holder := t.holder[p := ByCore(c)]))
  {
    hide Total;
    assert CoreInv(t, c);
    var n := |t.cores[c].stash| - 1;
    var p := t.cores[c].stash[n];
    var core := t.cores[c].(page := Some(p), pageSize := HOMA_SKB_PAGE_SIZE, inuse := 0, stash := t.cores[c].stash[..n]);
    var t' := t.(cores := t.cores[c := core], holder := t.holder[p := ByCore(c)]);
    TotalZero(t.packets, p);
    forall d | 0 <= d < |t'.cores| ensures CoreInv(t', d) { assert CoreInv(t, d); }
  }

  /** A core without a page takes one from its pool. */
  lemma FromPool(t: State, c: nat)
    requires Inv(t) && c < |t.cores| && t.cores[c].page.None?
    requires t.cores[c].pool < |t.pools| && t.pools[t.cores[c].pool] != []
    ensures var i := t.cores[c].pool;
      var n := |t.pools[i]| - 1;
      var p := t.pools[i][n];
      Inv(t.(cores := t.cores[c := t.cores[c].(page := Some(p), pageSize := HOMA_SKB_PAGE_SIZE, inuse := 0)],
             pools := t.pools[i := t.pools[i][..n]], holder := t.holder[p := ByCore(c)]))
  {
    hide Total;
    var i := t.cores[c].pool;
    var n := |t.pools[i]| - 1;
    var p := t.pools[i][n];
    assert CoreInv(t, c);
    var core := t.cores[c].(page := Some(p), pageSize := HOMA_SKB_PAGE_SIZE, inuse := 0);
    var t' := t.(cores := t.cores[c := core], pools := t.pools[i := t.pools[i][..n]], holder := t.holder[p := ByCore(c)]);
    TotalZero(t.packets, p);
    forall d | 0 <= d < |t'.cores| ensures CoreInv(t', d) { assert CoreInv(t, d); }
  }

  /** A core without a page gets a new one. */
  lemma FromSystem(t: State, c: nat, p: Page, bytes: seq<Byte>)
    requires Inv(t) && c < |t.cores| && t.cores[c].page.None? && p !in t.mem
    requires |bytes| == PAGE_SIZE || |bytes| == HOMA_SKB_PAGE_SIZE
    ensures Inv(t.(mem := t.mem[p := bytes], refs := t.refs[p := 1], holder := t.holder[p := ByCore(c)],
                   cores := t.cores[c := t.cores[c].(page := Some(p), pageSize := |bytes|, inuse := 0)]))
  {
    hide Total, StoreOk, Count;
    assert CoreInv(t, c);
    var core := t.cores[c].(page := Some(p), pageSize := |bytes|, inuse := 0);
    var t' := t.(mem := t.mem[p := bytes], refs := t.refs[p := 1], holder := t.holder[p := ByCore(c)],
                 cores := t.cores[c := core]);
    NewPageUnused(t, p);
    forall d | 0 <= d < |t'.cores| ensures CoreInv(t', d) {
      assert CoreInv(t, d);
      StoreSame(t, t', p, t.cores[d].stash, InStash(d));
    }
    forall i | 0 <= i < |t'.pools| ensures StoreOk(t'.mem, t'.refs, t'.holder, t'.pools[i], InPool(i)) {
      StoreSame(t, t', p, t.pools[i], InPool(i));
    }
  }

  lemma NewPageUnused(t: State, p: Page)
    requires Inv(t) && p !in t.mem
    ensures Total(t.packets, p) == 0 && OutOfStore(t, p)
    ensures forall c :: 0 <= c < |t.cores| ==> t.cores[c].page != Some(p)
  {
    forall s, k | 0 <= s < |t.packets| && 0 <= k < |t.packets[s].frags| ensures t.packets[s].frags[k].page != p {
      assert AllInMem(t.mem, t.packets[s].frags);
    }
    TotalZero(t.packets, p);
    forall c | 0 <= c < |t.cores| ensures p !in t.cores[c].stash && t.cores[c].page != Some(p) { assert CoreInv(t, c); }
  }

  /** The first fragment of a packet goes away, with its reference. */
  ghost function Unlinked(t: State, s: nat): State
    requires s < |t.packets| && t.packets[s].frags != [] && t.packets[s].frags[0].page in t.refs
  {
    var p := t.packets[s].frags[0].page;
    t.(packets := t.packets[s := t.packets[s].(frags := t.packets[s].frags[1..])], refs := t.refs[p := t.refs[p] - 1])
  }

  lemma UnlinkKeeps(t: State, s: nat)
    requires Inv(t) && s < |t.packets| && t.packets[s].frags != []
    ensures t.packets[s].frags[0].page in t.refs && Inv(Unlinked(t, s))
    ensures Inv(t) && t.refs[t.packets[s].frags[0].page] == 1 ==> t.holder[t.packets[s].frags[0].page].Nobody?
  {
    hide Total, Count, StoreOk;
    var f := t.packets[s].frags[0];
    var q := t.packets[s].(frags := t.packets[s].frags[1..]);
    assert InMem(t.mem, f) by { assert AllInMem(t.mem, t.packets[s].frags); }
    var t' := Unlinked(t, s);
    forall x ensures Count(q.frags, x) == Count(t.packets[s].frags, x) + if x == f.page then -1 else 0 {
      CountLess(t.packets[s].frags, x);
    }
    TotalsAfter(t, s, q, f.page, -1);
    InUse(t, s, 0);
    assert AllInMem(t.mem, q.frags);
    forall d | 0 <= d < |t'.cores| ensures CoreInv(t', d) {
      assert CoreInv(t, d);
      StoreSame(t, t', f.page, t.cores[d].stash, InStash(d));
    }
    forall i | 0 <= i < |t'.pools| ensures StoreOk(t'.mem, t'.refs, t'.holder, t'.pools[i], InPool(i)) {
      StoreSame(t, t', f.page, t.pools[i], InPool(i));
    }
  }

  /** A page with a fragment is not in a store. */
  lemma InUse(t: State, s: nat, k: nat)
    requires Inv(t) && s < |t.packets| && k < |t.packets[s].frags|
    ensures var p := t.packets[s].frags[k].page;
      && p in t.mem && p in t.refs && p in t.holder && t.refs[p] >= 1 + Held(t.holder[p])
      && OutOfStore(t, p)
  {
    var p := t.packets[s].frags[k].page;
    assert InMem(t.mem, t.packets[s].frags[k]) by { assert AllInMem(t.mem, t.packets[s].frags); }
    TotalZero(t.packets, p);
    assert t.refs[p] == Total(t.packets, p) + Held(t.holder[p]);
    forall c | 0 <= c < |t.cores| ensures p !in t.cores[c].stash { assert CoreInv(t, c); }
  }

  /** A page whose last reference went away is put into a pool. */
  lemma CacheKeeps(t: State, p: Page, i: nat)
    requires Inv(t) && p in t.mem && i < |t.pools| && OutOfStore(t, p) && p in t.refs && p in t.holder
    requires t.refs[p] == 0 && t.holder[p].Nobody? && |t.mem[p]| == HOMA_SKB_PAGE_SIZE
    ensures Inv(t.(pools := t.pools[i := t.pools[i] + [p]], refs := t.refs[p := 1], holder := t.holder[p := InPool(i)]))
  {
    hide Total;
    var t' := t.(pools := t.pools[i := t.pools[i] + [p]], refs := t.refs[p := 1], holder := t.holder[p := InPool(i)]);
    forall d | 0 <= d < |t'.cores| ensures CoreInv(t', d) {
      assert CoreInv(t, d);
      StoreSame(t, t', p, t.cores[d].stash, InStash(d));
    }
    forall j | 0 <= j < |t'.pools| ensures StoreOk(t'.mem, t'.refs, t'.holder, t'.pools[j], InPool(j)) {
      StoreSame(t, t', p, t.pools[j], InPool(j));
    }
  }

  /** A page moves from a pool to a stash. */
  lemma StashKeeps(t: State, c: nat)
    requires Inv(t) && c < |t.cores| && t.cores[c].pool < |t.pools| && t.pools[t.cores[c].pool] != []
    ensures var i := t.cores[c].pool;
      var n := |t.pools[i]| - 1;
      var p := t.pools[i][n];
      Inv(t.(cores := t.cores[c := t.cores[c].(stash := t.cores[c].stash + [p])],
             pools := t.pools[i := t.pools[i][..n]], holder := t.holder[p := InStash(c)]))
  {
    hide Total;
    var i := t.cores[c].pool;
    var n := |t.pools[i]| - 1;
    var p := t.pools[i][n];
    var core := t.cores[c].(stash := t.cores[c].stash + [p]);
    var t' := t.(cores := t.cores[c := core], pools := t.pools[i := t.pools[i][..n]], holder := t.holder[p := InStash(c)]);
    forall d | 0 <= d < |t'.cores| ensures CoreInv(t', d) { assert CoreInv(t, d); }
  }
}
