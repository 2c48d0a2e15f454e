/** Bookkeeping of a pool of buffer pages: reference counts, owned pages, and
    the buffers that are in use. */
module PoolState {
  import opened Buffers
  import opened Sequences

  /** A bpage; `owner` is negative if no core owns it. */
  datatype BPage = BPage(refs: int, owner: int, expiration: int)

  datatype Core = Core(pageHint: int, bytesUsed: int, nextCandidate: int)

  /** A buffer in use: part of one bpage. */
  datatype Buf = Buf(offset: int, size: int)

  ghost function PageOf(b: Buf): int {
    b.offset / HOMA_BPAGE_SIZE
  }

  ghost function OnPage(live: set<Buf>, p: int): set<Buf> {
    set b | b in live && PageOf(b) == p
  }

  ghost function FreeSet(d: seq<BPage>): set<int> {
    set p | 0 <= p < |d| && d[p].refs == 0
  }

  /** The pages of a core. */
  ghost function Owns(d: seq<BPage>, c: int): set<int> {
    set p | 0 <= p < |d| && d[p].owner == c
  }

  ghost function Indicator(c: bool): int {
    if c then 1 else 0
  }

  /** References: one for each buffer in use, one for the owner, and one for a
      page that has been claimed but whose buffer is not in use yet. */
  ghost predicate RefsOk(d: seq<BPage>, live: set<Buf>, claimed: set<int>) {
    forall p :: 0 <= p < |d| ==> d[p].refs == |OnPage(live, p)| + Indicator(d[p].owner >= 0) + Indicator(p in claimed)
  }

  /** A core owns at most one page, the one in its hint. */
  ghost predicate OwnersOk(d: seq<BPage>, cores: seq<Core>, claimed: set<int>) {
    forall p :: 0 <= p < |d| && d[p].owner >= 0 ==>
      d[p].owner < |cores| && (p in claimed || cores[d[p].owner].pageHint == p)
  }

  ghost predicate CoresOk(cores: seq<Core>, n: nat) {
    forall c :: 0 <= c < |cores| ==>
      0 <= cores[c].pageHint < n && 0 <= cores[c].bytesUsed <= HOMA_BPAGE_SIZE && 0 <= cores[c].nextCandidate <= n
  }

  ghost predicate Apart(a: Buf, b: Buf) {
    a.offset + a.size <= b.offset || b.offset + b.size <= a.offset
  }

  /** The buffer lies in one of the `n` pages. */
  ghost predicate InOnePage(b: Buf, n: nat) {
    && 0 < b.size && 0 <= b.offset && PageOf(b) < n
    && b.offset % HOMA_BPAGE_SIZE + b.size <= HOMA_BPAGE_SIZE
  }

  /** On an owned page, the owner has counted the buffer as used. */
  ghost predicate Counted(d: seq<BPage>, cores: seq<Core>, b: Buf)
    requires InOnePage(b, |d|)
  {
    var o := d[PageOf(b)].owner;
    0 <= o < |cores| ==> b.offset % HOMA_BPAGE_SIZE + b.size <= cores[o].bytesUsed
  }

  /** Buffers in use do not overlap. */
  ghost predicate LiveOk(d: seq<BPage>, cores: seq<Core>, live: set<Buf>) {
    && (forall b :: b in live ==> InOnePage(b, |d|) && Counted(d, cores, b))
    && (forall a, b :: a in live && b in live && a != b ==> Apart(a, b))
  }

  ghost predicate ClaimsOk(d: seq<BPage>, live: set<Buf>, claimed: set<int>) {
    forall p :: p in claimed ==> 0 <= p < |d| && OnPage(live, p) == {}
  }

  ghost predicate Sound(d: seq<BPage>, cores: seq<Core>, live: set<Buf>, claimed: set<int>) {
    && RefsOk(d, live, claimed) && OwnersOk(d, cores, claimed) && CoresOk(cores, |d|)
    && LiveOk(d, cores, live) && ClaimsOk(d, live, claimed)
  }

  // ----- Steps -----

  /** A page that is free, or owned without being in use, may be claimed. */
  ghost predicate Available(bp: BPage) {
    bp.refs == 0 || (bp.refs == 1 && bp.owner >= 0)
  }

  lemma ClaimPage(d: seq<BPage>, cores: seq<Core>, live: set<Buf>, claimed: set<int>, p: int, bp: BPage)
    requires Sound(d, cores, live, claimed) && 0 <= p < |d| && Available(d[p])
    requires bp.owner < |cores| && bp.refs == 1 + Indicator(bp.owner >= 0)
    ensures p !in claimed && Sound(d[p := bp], cores, live, claimed + {p})
    ensures FreeSet(d[p := bp]) == FreeSet(d) - {p}
    ensures |FreeSet(d[p := bp])| == |FreeSet(d)| - Indicator(d[p].owner < 0)
  {
    hide FreeSet, Apart;
    var d' := d[p := bp];
    assert OnPage(live, p) == {};
    FreeUpdated(d, p, bp);
    forall b | b in live ensures InOnePage(b, |d'|) && Counted(d', cores, b) {
      assert b in OnPage(live, PageOf(b));
    }
    forall q | 0 <= q < |d'|
      ensures d'[q].refs == |OnPage(live, q)| + Indicator(d'[q].owner >= 0) + Indicator(q in claimed + {p})
    {
    }
  }

  lemma OnPageGrows(live: set<Buf>, b: Buf, q: int)
    requires b !in live
    ensures OnPage(live + {b}, q) == OnPage(live, q) + (if q == PageOf(b) then {b} else {})
    ensures |OnPage(live + {b}, q)| == |OnPage(live, q)| + Indicator(q == PageOf(b))
  {
    assert OnPage(live + {b}, q) == OnPage(live, q) + (if q == PageOf(b) then {b} else {});
  }

  /** A buffer more in use means a reference more, to its page. */
  lemma RefsMove(d: seq<BPage>, d': seq<BPage>, live: set<Buf>, b: Buf, claimed: set<int>, claimed': set<int>)
    requires |d| == |d'| && b !in live
    requires forall q :: 0 <= q < |d| ==>
      d'[q].refs - Indicator(d'[q].owner >= 0) - Indicator(q in claimed') ==
      d[q].refs - Indicator(d[q].owner >= 0) - Indicator(q in claimed) + Indicator(q == PageOf(b))
    ensures RefsOk(d, live, claimed) <==> RefsOk(d', live + {b}, claimed')
  {
    hide PageOf, OnPage;
    forall q: int ensures |OnPage(live + {b}, q)| == |OnPage(live, q)| + Indicator(q == PageOf(b)) {
      OnPageGrows(live, b, q);
    }
  }

  lemma FreeUpdated(d: seq<BPage>, p: int, bp: BPage)
    requires 0 <= p < |d|
    ensures FreeSet(d[p := bp]) == FreeSet(d) - {p} + (if bp.refs == 0 then {p} else {})
    ensures |FreeSet(d[p := bp])| == |FreeSet(d)| - Indicator(d[p].refs == 0) + Indicator(bp.refs == 0)
    ensures d[p].refs != 0 && bp.refs != 0 ==> FreeSet(d[p := bp]) == FreeSet(d)
  {
    var d' := d[p := bp];
    assert FreeSet(d') == FreeSet(d) - {p} + (if bp.refs == 0 then {p} else {});
    assert p in FreeSet(d) <==> d[p].refs == 0;
  }

  lemma LiveSameOwners(d: seq<BPage>, d': seq<BPage>, cores: seq<Core>, live: set<Buf>, live': set<Buf>)
    requires live' <= live && |d'| == |d| && forall q :: 0 <= q < |d| ==> d'[q].owner == d[q].owner
    requires LiveOk(d, cores, live)
    ensures LiveOk(d', cores, live')
  {
    forall b | b in live' ensures Counted(d', cores, b) { assert Counted(d, cores, b); }
  }

  lemma DifferentPagesApart(a: Buf, b: Buf, n: nat)
    requires InOnePage(a, n) && InOnePage(b, n) && PageOf(a) != PageOf(b)
    ensures Apart(a, b)
  {
  }

  /** A buffer on a page joins those in use. */
  lemma AddLive(d: seq<BPage>, cores: seq<Core>, live: set<Buf>, b: Buf)
    requires LiveOk(d, cores, live) && InOnePage(b, |d|) && Counted(d, cores, b) && b !in live
    requires forall a :: a in live && PageOf(a) == PageOf(b) ==> Apart(a, b)
    ensures LiveOk(d, cores, live + {b})
  {
    forall a | a in live ensures Apart(a, b) {
      if PageOf(a) != PageOf(b) { DifferentPagesApart(a, b, |d|); }
    }
  }

  /** The buffer of a claimed page comes into use. */
  lemma UseClaim(d: seq<BPage>, cores: seq<Core>, live: set<Buf>, claimed: set<int>, p: int, size: int)
    requires Sound(d, cores, live, claimed) && p in claimed && 0 < size <= HOMA_BPAGE_SIZE
    requires 0 <= d[p].owner ==> cores[d[p].owner].pageHint == p && size <= cores[d[p].owner].bytesUsed
    ensures Buf(p * HOMA_BPAGE_SIZE, size) !in live
    ensures Sound(d, cores, live + {Buf(p * HOMA_BPAGE_SIZE, size)}, claimed - {p})
  {
    var b := Buf(p * HOMA_BPAGE_SIZE, size);
    assert PageOf(b) == p && b.offset % HOMA_BPAGE_SIZE == 0;
    assert forall a :: a in live && PageOf(a) == p ==> a in OnPage(live, p);
    AddLive(d, cores, live, b);
    RefsMove(d, d, live, b, claimed, claimed - {p});
    forall q | q in claimed - {p} ensures OnPage(live + {b}, q) == {} { OnPageGrows(live, b, q); }
  }

  /** The next part of an owned page comes into use. */
  lemma UseOwned(d: seq<BPage>, cores: seq<Core>, live: set<Buf>, c: nat, size: int, bp: BPage)
    requires Sound(d, cores, live, {}) && c < |cores| && 0 < size
    requires var p := cores[c].pageHint; d[p].owner == c && bp.owner == c && bp.refs == d[p].refs + 1
    requires cores[c].bytesUsed + size <= HOMA_BPAGE_SIZE
    ensures var p := cores[c].pageHint;
      var b := Buf(p * HOMA_BPAGE_SIZE + cores[c].bytesUsed, size);
      && b !in live
      && Sound(d[p := bp], cores[c := cores[c].(bytesUsed := cores[c].bytesUsed + size)], live + {b}, {})
      && FreeSet(d[p := bp]) == FreeSet(d)
  {
    hide RefsOk, OwnersOk, LiveOk, FreeSet, OnPage, InOnePage, Counted, Apart;
    var p := cores[c].pageHint;
    var b := Buf(p * HOMA_BPAGE_SIZE + cores[c].bytesUsed, size);
    var d', cores' := d[p := bp], cores[c := cores[c].(bytesUsed := cores[c].bytesUsed + size)];
    FitsBehind(d, cores, live, c, size);
    MoreUsed(d, d', cores, live, c, cores[c].bytesUsed + size);
    CountedNow(d', cores', c, size);
    AddLive(d', cores', live, b);
    assert PageOf(b) == p;
    RefsMove(d, d', live, b, {}, {});
    OwnersSame(d, d', cores, {}, {});
    HintsSame(d', cores, cores');
    OwnedPage(d, live, p);
    FreeUpdated(d, p, bp);
  }

  /** Behind what an owner has used there are no buffers yet. */
  lemma FitsBehind(d: seq<BPage>, cores: seq<Core>, live: set<Buf>, c: nat, size: int)
    requires LiveOk(d, cores, live) && CoresOk(cores, |d|) && c < |cores| && 0 < size
    requires d[cores[c].pageHint].owner == c && cores[c].bytesUsed + size <= HOMA_BPAGE_SIZE
    ensures var b := Buf(cores[c].pageHint * HOMA_BPAGE_SIZE + cores[c].bytesUsed, size);
      && InOnePage(b, |d|) && b !in live
      && forall a :: a in live && PageOf(a) == PageOf(b) ==> Apart(a, b)
  {
    var p := cores[c].pageHint;
    var b := Buf(p * HOMA_BPAGE_SIZE + cores[c].bytesUsed, size);
    assert PageOf(b) == p && b.offset % HOMA_BPAGE_SIZE == cores[c].bytesUsed;
    forall a | a in live && PageOf(a) == p ensures Apart(a, b) && a != b { assert Counted(d, cores, a); }
  }

  lemma CountedNow(d: seq<BPage>, cores: seq<Core>, c: nat, size: int)
    requires c < |cores| && 0 <= cores[c].pageHint < |d| && 0 < size <= cores[c].bytesUsed <= HOMA_BPAGE_SIZE
    requires d[cores[c].pageHint].owner == c
    ensures var b := Buf(cores[c].pageHint * HOMA_BPAGE_SIZE + (cores[c].bytesUsed - size), size);
      InOnePage(b, |d|) && Counted(d, cores, b)
  {
  }

  lemma HintsSame(d: seq<BPage>, cores: seq<Core>, cores': seq<Core>)
    requires OwnersOk(d, cores, {}) && |cores'| == |cores|
    requires forall c :: 0 <= c < |cores| ==> cores'[c].pageHint == cores[c].pageHint
    ensures OwnersOk(d, cores', {})
  {
  }

  lemma OwnedPage(d: seq<BPage>, live: set<Buf>, p: int)
    requires RefsOk(d, live, {}) && 0 <= p < |d| && d[p].owner >= 0
    ensures d[p].refs > 0
  {
  }

  lemma MoreUsed(d: seq<BPage>, d': seq<BPage>, cores: seq<Core>, live: set<Buf>, c: nat, used: int)
    requires |d'| == |d| && forall q :: 0 <= q < |d| ==> d'[q].owner == d[q].owner
    requires LiveOk(d, cores, live) && c < |cores| && cores[c].bytesUsed <= used
    ensures LiveOk(d', cores[c := cores[c].(bytesUsed := used)], live)
  {
    forall b | b in live ensures Counted(d', cores[c := cores[c].(bytesUsed := used)], b) {
      assert Counted(d, cores, b);
    }
  }

  /** An owned page without buffers in use can be filled from its start. */
  lemma ReuseOwned(d: seq<BPage>, cores: seq<Core>, live: set<Buf>, c: nat)
    requires Sound(d, cores, live, {}) && c < |cores|
    requires d[cores[c].pageHint].owner == c && d[cores[c].pageHint].refs == 1
    ensures Sound(d, cores[c := cores[c].(bytesUsed := 0)], live, {})
  {
    var p := cores[c].pageHint;
    assert OnPage(live, p) == {};
    forall b | b in live ensures Counted(d, cores[c := cores[c].(bytesUsed := 0)], b) {
      assert b in OnPage(live, PageOf(b));
      assert Counted(d, cores, b);
    }
  }

  /** A core gives up its page. */
  lemma DropOwned(d: seq<BPage>, cores: seq<Core>, live: set<Buf>, p: int, bp: BPage)
    requires Sound(d, cores, live, {}) && 0 <= p < |d| && 0 <= d[p].owner && d[p].refs > 1
    requires bp.owner == -1 && bp.refs == d[p].refs - 1
    ensures Sound(d[p := bp], cores, live, {}) && FreeSet(d[p := bp]) == FreeSet(d)
    ensures Owns(d[p := bp], d[p].owner) == {}
  {
    hide OnPage, FreeSet, Apart;
    var d' := d[p := bp];
    forall b | b in live ensures Counted(d', cores, b) { assert Counted(d, cores, b); }
    FreeUpdated(d, p, bp);
  }

  /** A core takes the page it has claimed, having none so far. */
  lemma AdoptClaim(d: seq<BPage>, cores: seq<Core>, live: set<Buf>, c: nat, p: int, used: int)
    requires Sound(d, cores, live, {p}) && c < |cores| && d[p].owner == c && 0 <= used <= HOMA_BPAGE_SIZE
    requires Owns(d, c) == {p}
    ensures Sound(d, cores[c := cores[c].(pageHint := p, bytesUsed := used)], live, {p})
  {
    var cores' := cores[c := cores[c].(pageHint := p, bytesUsed := used)];
    assert forall q :: 0 <= q < |d| && d[q].owner == c ==> q in Owns(d, c);
    forall b | b in live ensures Counted(d, cores', b) {
      assert Counted(d, cores, b);
      assert b in OnPage(live, PageOf(b));
    }
  }

  /** A buffer goes out of use. */
  lemma Retire(d: seq<BPage>, cores: seq<Core>, live: set<Buf>, b: Buf, bp: BPage)
    requires Sound(d, cores, live, {}) && b in live
    requires bp == d[PageOf(b)].(refs := d[PageOf(b)].refs - 1)
    ensures Sound(d[PageOf(b) := bp], cores, live - {b}, {})
    ensures FreeSet(d[PageOf(b) := bp]) == FreeSet(d) + (if bp.refs == 0 then {PageOf(b)} else {})
    ensures |FreeSet(d[PageOf(b) := bp])| == |FreeSet(d)| + Indicator(bp.refs == 0)
  {
    hide RefsOk, OwnersOk, LiveOk, FreeSet, OnPage, PageOf, CoresOk;
    var p := PageOf(b);
    UsedPage(d, cores, live, b);
    var d', live' := d[p := bp], live - {b};
    assert live == live' + {b};
    RefsMove(d', d, live', b, {}, {});
    FreeUpdated(d, p, bp);
    OwnersSame(d, d', cores, {}, {});
    LiveSameOwners(d, d', cores, live, live');
  }

  lemma UsedPage(d: seq<BPage>, cores: seq<Core>, live: set<Buf>, b: Buf)
    requires RefsOk(d, live, {}) && LiveOk(d, cores, live) && b in live
    ensures 0 <= PageOf(b) < |d| && d[PageOf(b)].refs > 0
  {
    assert b in OnPage(live, PageOf(b));
  }

  lemma OwnersSame(d: seq<BPage>, d': seq<BPage>, cores: seq<Core>, claimed: set<int>, claimed': set<int>)
    requires OwnersOk(d, cores, claimed) && claimed <= claimed'
    requires |d'| == |d| && forall q :: 0 <= q < |d| ==> d'[q].owner == d[q].owner
    ensures OwnersOk(d', cores, claimed')
  {
  }

  /** The number of the next candidate page is not part of the state that
      matters here. */
  lemma CandidateMoved(d: seq<BPage>, cores: seq<Core>, live: set<Buf>, claimed: set<int>, c: nat, next: nat)
    requires Sound(d, cores, live, claimed) && c < |cores| && next <= |d|
    ensures Sound(d, cores[c := cores[c].(nextCandidate := next)], live, claimed)
  {
    var cores' := cores[c := cores[c].(nextCandidate := next)];
    forall b | b in live ensures Counted(d, cores', b) { assert Counted(d, cores, b); }
  }

  // ----- The search for free pages -----

  /** The first free page from `k` on, or the number of pages. */
  ghost function FirstFree(d: seq<BPage>, k: nat): (f: nat)
    requires k <= |d|
    ensures k <= f <= |d| && (f < |d| ==> d[f].refs == 0)
    ensures forall p :: k <= p < f ==> d[p].refs != 0
    decreases |d| - k
  {
    if k == |d| || d[k].refs == 0 then k else FirstFree(d, k + 1)
  }

  /** More pages than there are used ones contain a free one. */
  lemma FreeBelow(d: seq<BPage>, limit: nat)
    requires limit <= |d| && FreeSet(d) != {}
    requires limit == |d| || limit > |d| - |FreeSet(d)|
    ensures FirstFree(d, 0) < limit
  {
    var f := FirstFree(d, 0);
    var rest := set p | f <= p < |d| && InTail(p, f);
    assert FreeSet(d) <= rest;
    TailSize(f, |d|);
    assert rest * FreeSet(d) == FreeSet(d);
    assert |rest - FreeSet(d)| + |rest * FreeSet(d)| == |rest|;
  }

  ghost predicate InTail(p: int, limit: int) {
    limit <= p
  }

  lemma {:induction false} TailSize(limit: nat, n: nat)
    requires limit <= n
    ensures |set p | limit <= p < n && InTail(p, limit)| == n - limit
    decreases n - limit
  {
    var s := set p | limit <= p < n && InTail(p, limit);
    if limit < n {
      var t := set p | limit <= p < n - 1 && InTail(p, limit);
      assert s == t + {n - 1};
      TailSize(limit, n - 1);
    }
  }

  /** How many candidates the search looks at, at most, before it claims
      another page; `limit` is 0 if it is about to be computed. */
  ghost function Steps(d: seq<BPage>, next: nat, limit: nat): nat
    requires next <= |d| && limit <= |d|
  {
    if limit == 0 then (if next == 0 then |d| + 1 else 3 * |d| + 5)
    else if FirstFree(d, next) < limit then FirstFree(d, next) - next
    else |d| + 2 + (if next < limit then limit - next else 0)
  }

  const MIN_EXTRA := 4

  /** Pages from here on are not considered: some more pages than are used. */
  function LimitFor(n: nat, free: nat): (limit: nat)
    requires free <= n
    ensures limit == n || (limit > n - free && limit <= n)
  {
    var used := n - free;
    var extra := used / 4;
    var limit := used + if extra < MIN_EXTRA then MIN_EXTRA else extra;
    if limit > n then n else limit
  }

  /** Each candidate that is not taken brings the search closer to a free page. */
  lemma StepsDecrease(d: seq<BPage>, free: nat, next: nat, limit: nat)
    requires free < |FreeSet(d)| <= |d| && next <= |d| && limit <= |d|
    ensures var l := if limit == 0 then LimitFor(|d|, free) else limit;
      && (next >= l ==> Steps(d, 0, 0) < Steps(d, next, limit))
      && (next < l && d[next].refs != 0 ==> Steps(d, next + 1, l) < Steps(d, next, limit))
  {
    var l := if limit == 0 then LimitFor(|d|, free) else limit;
    if limit == 0 { FreeBelow(d, l); }
  }

  lemma SoundCore(d: seq<BPage>, cores: seq<Core>, live: set<Buf>, claimed: set<int>, c: nat)
    requires Sound(d, cores, live, claimed) && c < |cores|
    ensures 0 <= cores[c].pageHint < |d| && 0 <= cores[c].bytesUsed <= HOMA_BPAGE_SIZE
    ensures 0 <= cores[c].nextCandidate <= |d|
    ensures forall p :: 0 <= p < |d| ==> d[p].refs >= 0
  {
  }

  // ----- Messages -----

  ghost function Pages(pages: seq<int>): set<int> {
    set k | 0 <= k < |pages| :: pages[k]
  }

  ghost function FullBufs(pages: seq<int>): set<Buf> {
    set k | 0 <= k < |pages| :: Buf(pages[k] * HOMA_BPAGE_SIZE, HOMA_BPAGE_SIZE)
  }

  lemma PagesOneMore(pages: seq<int>, p: int)
    ensures Pages(pages + [p]) == Pages(pages) + {p}
    ensures FullBufs(pages + [p]) == FullBufs(pages) + {Buf(p * HOMA_BPAGE_SIZE, HOMA_BPAGE_SIZE)}
    ensures Distinct(pages) && p !in Pages(pages) ==> Distinct(pages + [p])
  {
    var more := pages + [p];
    assert more[|pages|] == p;
    forall k | 0 <= k < |pages| ensures more[k] == pages[k] && pages[k] in Pages(pages) {}
  }

  /** Whole pages come into use. */
  lemma {:induction false} UseClaims(d: seq<BPage>, cores: seq<Core>, live: set<Buf>, pages: seq<int>)
    requires Sound(d, cores, live, Pages(pages)) && Distinct(pages)
    requires forall p :: p in Pages(pages) ==> 0 <= p < |d| && d[p].owner < 0
    ensures Sound(d, cores, live + FullBufs(pages), {}) && FullBufs(pages) !! live
    decreases |pages|
  {
    hide Sound;
    if pages == [] {
      assert Pages(pages) == {} && live + FullBufs(pages) == live;
    } else {
      var n := |pages| - 1;
      var rest, p := pages[..n], pages[n];
      var b := Buf(p * HOMA_BPAGE_SIZE, HOMA_BPAGE_SIZE);
      assert pages == rest + [p];
      PagesOneMore(rest, p);
      assert p in Pages(pages);
      assert p !in Pages(rest);
      UseClaim(d, cores, live, Pages(pages), p, HOMA_BPAGE_SIZE);
      assert Pages(pages) - {p} == Pages(rest);
      UseClaims(d, cores, live + {b}, rest);
      assert live + {b} + FullBufs(rest) == live + FullBufs(pages);
    }
  }

  /** The buffers of a message. */
  ghost function BufsOf(offsets: seq<int>, length: nat): set<Buf> {
    set k | 0 <= k < |offsets| :: Buf(offsets[k], ChunkSize(length, k))
  }

  /** If the buffers of a message are in use, each in its own right, then they
      serve for the message. */
  lemma LiveServe(d: seq<BPage>, cores: seq<Core>, live: set<Buf>, offsets: seq<nat>, length: nat)
    requires LiveOk(d, cores, live) && |offsets| == PagesFor(length) && BufsOf(offsets, length) <= live
    requires forall j, k :: 0 <= j < k < |offsets| ==> offsets[j] != offsets[k]
    ensures BuffersOk(offsets, length, |d| * HOMA_BPAGE_SIZE)
  {
    forall k | 0 <= k < |offsets| ensures offsets[k] + ChunkSize(length, k) <= |d| * HOMA_BPAGE_SIZE {
      var b := Buf(offsets[k], ChunkSize(length, k));
      assert b in BufsOf(offsets, length);
      assert InOnePage(b, |d|);
    }
    forall j, k | 0 <= j < k < |offsets|
      ensures || offsets[j] + ChunkSize(length, j) <= offsets[k]
              || offsets[k] + ChunkSize(length, k) <= offsets[j]
    {
      var a, b := Buf(offsets[j], ChunkSize(length, j)), Buf(offsets[k], ChunkSize(length, k));
      assert a in BufsOf(offsets, length) && b in BufsOf(offsets, length);
      assert Apart(a, b);
    }
  }

  /** Messages with different buffers in use share no place, so that neither
      can write into the other. */
  lemma MessagesApart(live: set<Buf>, offsets: seq<nat>, length: nat, offsets': seq<nat>, length': nat, i: nat, j: nat)
    requires Separate(live) && BufsOf(offsets, length) <= live && BufsOf(offsets', length') <= live
    requires |offsets| == PagesFor(length) && |offsets'| == PagesFor(length')
    requires BufsOf(offsets, length) !! BufsOf(offsets', length')
    requires i < length && j < length'
    ensures AddrOf(offsets, i) != AddrOf(offsets', j)
  {
    hide PagesFor, ChunkSize, Separate;
    Buffers.PageBounds(offsets, length, i);
    Buffers.PageBounds(offsets', length', j);
    var k, l := i / HOMA_BPAGE_SIZE, j / HOMA_BPAGE_SIZE;
    var a, b := Buf(offsets[k], ChunkSize(length, k)), Buf(offsets'[l], ChunkSize(length', l));
    assert a in BufsOf(offsets, length) && b in BufsOf(offsets', length');
    assert a != b;
    LiveApart(live, a, b);
  }

  /** Buffers do not overlap; so no two have the same offset. */
  ghost predicate Separate(live: set<Buf>) {
    && (forall b :: b in live ==> 0 < b.size)
    && (forall a, b :: a in live && b in live && a != b ==> Apart(a, b))
  }

  lemma LiveSeparate(d: seq<BPage>, cores: seq<Core>, live: set<Buf>)
    requires Sound(d, cores, live, {})
    ensures Separate(live)
  {
    hide RefsOk, OwnersOk, CoresOk, Apart;
    assert forall b :: b in live ==> InOnePage(b, |d|);
  }

  lemma LiveApart(live: set<Buf>, a: Buf, b: Buf)
    requires Separate(live) && a in live && b in live && a != b
    ensures Apart(a, b) && a.offset != b.offset
  {
  }

  /** Each of the offsets belongs to a buffer in use, and none is repeated. */
  ghost predicate AllLive(live: set<Buf>, offsets: seq<int>) {
    && (forall k :: 0 <= k < |offsets| ==> HasOffset(live, offsets[k]))
    && Distinct(offsets)
  }

  ghost predicate HasOffset(live: set<Buf>, offset: int) {
    exists b :: b in live && b.offset == offset
  }

  /** What is left when the buffers with these offsets are released. */
  ghost function Remaining(live: set<Buf>, offsets: seq<int>): set<Buf> {
    set b | b in live && b.offset !in offsets
  }

  /** Releasing one more. */
  lemma RemainingOneMore(live: set<Buf>, offsets: seq<int>, n: nat) returns (b: Buf)
    requires Separate(live) && AllLive(live, offsets) && n < |offsets|
    ensures b.offset == offsets[n] && b in Remaining(live, offsets[..n])
    ensures Remaining(live, offsets[..n + 1]) == Remaining(live, offsets[..n]) - {b}
  {
    assert HasOffset(live, offsets[n]);
    b :| b in live && b.offset == offsets[n];
    assert offsets[..n + 1] == offsets[..n] + [offsets[n]];
    assert forall k :: 0 <= k < n ==> offsets[..n][k] == offsets[k];
    forall a | a in live && a.offset == b.offset ensures a == b {
      if a != b { LiveApart(live, a, b); }
    }
  }
}
