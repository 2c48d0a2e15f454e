/** The pool of buffer pages of a socket. */
module Pool {
  import opened Buffers
  import opened PoolState
  import opened Sequences

  const MIN_POOL_SIZE := 2
  const PAGE_SIZE := 4096
  const INT_MAX := 0x7fff_ffff

  /** An RPC that waits for buffer space. */
  datatype Waiter = Waiter(id: nat, length: nat)

  datatype Allocation = NoPool | Queued | Allocated(offsets: seq<nat>)

  ghost predicate Sorted(waiting: seq<Waiter>) {
    forall j, k :: 0 <= j < k < |waiting| ==> waiting[j].length <= waiting[k].length
  }

  /** `bpagesNeeded` is not too large, so no waiting RPC is overlooked; it may
      be too small if the first RPC has been freed. */
  ghost predicate QueueOk(waiting: seq<Waiter>, needed: int) {
    && Sorted(waiting) && (forall k :: 0 <= k < |waiting| ==> 0 < waiting[k].length)
    && (waiting != [] ==> needed <= PagesFor(waiting[0].length))
  }

  /** Cores differ in their next candidate at most. */
  ghost predicate SameHints(a: seq<Core>, b: seq<Core>) {
    |a| == |b| && forall c :: 0 <= c < |a| ==> b[c] == a[c].(nextCandidate := b[c].nextCandidate)
  }

  class Pool {
    const numBpages: nat
    const descriptors: array<BPage>
    const cores: array<Core>
    var hasRegion: bool
    var freeBpages: int
    var bpagesNeeded: int
    var waiting: seq<Waiter>
    ghost var live: set<Buf>         // the buffers in use

    /** Reference counts agree with the buffers in use, and those do not
        overlap; free pages are counted. */
    ghost predicate Valid()
      reads this, descriptors, cores
    {
      && Shape() && Sound(descriptors[..], cores[..], live, {})
      && freeBpages == |FreeSet(descriptors[..])|
      && QueueOk(waiting, bpagesNeeded)
    }

    ghost predicate Shape()
      reads this
    {
      descriptors.Length == numBpages && MIN_POOL_SIZE <= numBpages < INT_MAX
    }

    constructor (numBpages: nat, numCores: nat)
      requires MIN_POOL_SIZE <= numBpages < INT_MAX
      ensures Valid() && live == {} && waiting == [] && hasRegion
      ensures this.numBpages == numBpages && freeBpages == numBpages && cores.Length == numCores
      ensures fresh(descriptors) && fresh(cores) && bpagesNeeded == INT_MAX
      ensures forall k :: 0 <= k < numCores ==> cores[k] == Core(0, 0, 0)
    {
      this.numBpages, hasRegion, freeBpages, bpagesNeeded := numBpages, true, numBpages, INT_MAX;
      waiting, live := [], {};
      descriptors := new BPage[numBpages](_ => BPage(0, -1, 0));
      cores := new Core[numCores](_ => Core(0, 0, 0));
      new;
      AllFree(descriptors[..]);
    }

    // ----- Whole pages -----

    /** Claims a page: marks it as used, or as owned by a core and used. */
    method Claim(cur: nat, core: nat, expiration: int, setOwner: bool, ghost claimed: set<int>)
      requires Shape() && Sound(descriptors[..], cores[..], live, claimed)
      requires cur < numBpages && core < cores.Length && Available(descriptors[cur])
      modifies this`freeBpages, descriptors
      ensures Sound(descriptors[..], cores[..], live, claimed + {cur}) && cur !in claimed
      ensures descriptors[cur].owner == if setOwner then core else -1
      ensures setOwner ==> descriptors[cur].expiration == expiration
      ensures forall p :: 0 <= p < numBpages && p != cur ==> descriptors[p] == old(descriptors[p])
      ensures |FreeSet(descriptors[..])| - freeBpages == old(|FreeSet(descriptors[..])| - freeBpages) - 1
      ensures freeBpages >= old(freeBpages)
    {
      hide Sound, FreeSet;
      var bp := descriptors[cur];
      if bp.owner >= 0 {
        freeBpages := freeBpages + 1;
      }
      if setOwner {
        bp := BPage(2, core, expiration);
      } else {
        bp := bp.(refs := 1, owner := -1);
      }
      ClaimPage(descriptors[..], cores[..], live, claimed, cur, bp);
      descriptors[cur] := bp;
      assert descriptors[..] == old(descriptors[..])[cur := bp];
    }

    /** Gets `num` pages that are free or whose lease has expired. The search
        ends, since enough pages were reserved at the beginning. */
    method GetPages(num: nat, core: nat, now: int, lease: int, setOwner: bool) returns (ok: bool, pages: seq<int>)
      requires Valid() && core < cores.Length
      modifies this`freeBpages, descriptors, cores
      ensures ok <==> old(freeBpages) >= num
      ensures !ok ==> freeBpages == old(freeBpages)
      ensures !ok ==> descriptors[..] == old(descriptors[..]) && cores[..] == old(cores[..])
      ensures ok ==> |pages| == num && Got(old(descriptors[..]), pages, if setOwner then core else -1)
      ensures ok && setOwner ==> forall p :: p in Pages(pages) ==> descriptors[p].expiration == now + lease
      ensures ok ==> Sound(descriptors[..], cores[..], live, Pages(pages))
      ensures ok ==> freeBpages == |FreeSet(descriptors[..])| >= old(freeBpages) - num
      ensures SameHints(old(cores[..]), cores[..])
    {
      hide Sound, FreeSet, Sorted, QueueOk, Available, Pages, Distinct;
      NoPages();
      pages := [];
      freeBpages := freeBpages - num;
      if freeBpages < 0 {
        freeBpages := freeBpages + num;
        return false, [];
      }
      ok := true;
      var limit: nat := 0;
      SoundCore(descriptors[..], cores[..], live, {}, core);
      while |pages| != num
        invariant |pages| <= num && Got(old(descriptors[..]), pages, if setOwner then core else -1)
        invariant setOwner ==> forall p :: p in Pages(pages) ==> descriptors[p].expiration == now + lease
        invariant Sound(descriptors[..], cores[..], live, Pages(pages)) && SameHints(old(cores[..]), cores[..])
        invariant |FreeSet(descriptors[..])| == freeBpages + (num - |pages|) && 0 <= old(freeBpages) - num <= freeBpages
        invariant limit <= numBpages && 0 <= cores[core].nextCandidate <= numBpages
        decreases num - |pages|, Steps(descriptors[..], cores[core].nextCandidate, limit)
      {
        var found, cur;
        found, cur, limit := Search(core, now, limit, Pages(pages));
        if found {
          Claim(cur, core, now + lease, setOwner, Pages(pages));
          PagesOneMore(pages, cur);
          pages := pages + [cur];
        }
      }
    }

    /** The pages have been taken for `owner`, and no others. */
    ghost predicate Got(d: seq<BPage>, pages: seq<int>, owner: int)
      reads descriptors
    {
      && |d| == descriptors.Length && Distinct(pages)
      && (forall p :: p in Pages(pages) ==> 0 <= p < |d| && descriptors[p].owner == owner)
      && (forall p :: 0 <= p < |d| && p !in Pages(pages) ==> descriptors[p] == d[p])
    }

    /** Looks at the next candidate. */
    method Search(core: nat, now: int, limit: nat, ghost claimed: set<int>) returns (found: bool, cur: nat, limit': nat)
      requires Shape() && Sound(descriptors[..], cores[..], live, claimed) && core < cores.Length
      requires limit <= numBpages && 0 <= cores[core].nextCandidate <= numBpages
      requires 0 <= freeBpages < |FreeSet(descriptors[..])|
      modifies cores
      ensures Sound(descriptors[..], cores[..], live, claimed) && SameHints(old(cores[..]), cores[..])
      ensures limit' <= numBpages && 0 <= cores[core].nextCandidate <= numBpages
      ensures cur == old(cores[core].nextCandidate) && freeBpages <= numBpages
      ensures var l := if limit == 0 then LimitFor(numBpages, freeBpages) else limit;
        && (found <==> cur < l && Available(descriptors[cur])
                       && (descriptors[cur].refs == 1 ==> descriptors[cur].expiration <= now))
        && cores[core].nextCandidate == (if cur < l then cur + 1 else 0) && limit' == if cur < l then l else 0
      ensures !found ==> Steps(descriptors[..], cores[core].nextCandidate, limit')
                         < old(Steps(descriptors[..], cores[core].nextCandidate, limit))
    {
      hide Sound, FreeSet, Steps;
      found, cur, limit' := false, 0, limit;
      FewerFree(descriptors[..]);
      SoundCore(descriptors[..], cores[..], live, claimed, core);
      StepsDecrease(descriptors[..], freeBpages, cores[core].nextCandidate, limit);
      if limit' == 0 {
        limit' := LimitFor(numBpages, freeBpages);
      }
      cur := cores[core].nextCandidate;
      if cur >= limit' {
        SetNext(core, 0, claimed);
        limit' := 0;
      } else {
        SetNext(core, cur + 1, claimed);
        var bp := descriptors[cur];
        found := !(bp.refs >= 2 || (bp.refs == 1 && (bp.owner < 0 || bp.expiration > now)));
      }
    }

    method SetNext(core: nat, next: nat, ghost claimed: set<int>)
      requires Shape() && Sound(descriptors[..], cores[..], live, claimed) && core < cores.Length && next <= numBpages
      modifies cores
      ensures Sound(descriptors[..], cores[..], live, claimed) && SameHints(old(cores[..]), cores[..])
      ensures cores[core].nextCandidate == next
    {
      hide Sound;
      CandidateMoved(descriptors[..], cores[..], live, claimed, core, next);
      cores[core] := cores[core].(nextCandidate := next);
      assert cores[..] == old(cores[..])[core := old(cores[core]).(nextCandidate := next)];
    }
  
    // ----- Buffers for a message -----

    /** Whole pages for a message. */
    method AllocateFull(num: nat, core: nat, now: int, lease: int) returns (ok: bool, offsets: seq<nat>)
      requires Valid() && core < cores.Length
      modifies this`freeBpages, this`live, descriptors, cores
      ensures Valid() && (ok <==> old(freeBpages) >= num)
      ensures !ok ==> live == old(live)
      ensures ok ==> |offsets| == num && freeBpages >= old(freeBpages) - num
      ensures ok ==> Fresh(old(live), live, offsets)
    {
      hide Sound, FreeSet, Sorted, QueueOk, Pages, Distinct, FullBufs;
      offsets := [];
      var pages;
      ok, pages := GetPages(num, core, now, lease, false);
      if ok {
        UseClaims(descriptors[..], cores[..], live, pages);
        live := live + FullBufs(pages);
        PagesInRange(pages, num);
        offsets := seq(num, k requires 0 <= k < num => pages[k] * HOMA_BPAGE_SIZE);
        FreshPages(old(live), pages, offsets);
      }
    }

    /** The core owns a page with room, or one that can be used again. */
    ghost predicate HasRoom(core: nat, partial: nat)
      requires Valid() && core < cores.Length
      reads this, descriptors, cores
    {
      && 0 <= cores[core].pageHint < numBpages && descriptors[cores[core].pageHint].owner == core
      && (cores[core].bytesUsed + partial <= HOMA_BPAGE_SIZE || descriptors[cores[core].pageHint].refs == 1)
    }

    /** The core owns the page, up to the end of the buffer and until the
        given time. */
    ghost predicate Leased(core: nat, offset: nat, partial: nat, expiration: int)
      reads this, descriptors, cores
    {
      var p := offset / HOMA_BPAGE_SIZE;
      && p < descriptors.Length && core < cores.Length
      && descriptors[p].owner == core && descriptors[p].expiration == expiration
      && cores[core].pageHint == p && cores[core].bytesUsed == offset % HOMA_BPAGE_SIZE + partial
    }

    /** The last part of a message: from the page that the core owns, or from
        a new one. */
    method AllocatePartial(partial: nat, core: nat, now: int, lease: int) returns (ok: bool, offset: nat)
      requires Valid() && core < cores.Length && 0 < partial < HOMA_BPAGE_SIZE
      modifies this`freeBpages, this`live, descriptors, cores
      ensures Valid() && (ok <==> old(freeBpages) >= 1 || old(HasRoom(core, partial)))
      ensures old(HasRoom(core, partial)) ==>
        freeBpages == old(freeBpages) && offset / HOMA_BPAGE_SIZE == old(cores[core].pageHint)
      ensures !ok ==> live == old(live)
      ensures ok ==> Buf(offset, partial) !in old(live) && live == old(live) + {Buf(offset, partial)}
      ensures ok ==> Leased(core, offset, partial, now + lease)
    {
      hide Sound, FreeSet, Sorted, QueueOk, Leased;
      SoundCore(descriptors[..], cores[..], live, {}, core);
      var hint := cores[core].pageHint;
      ok, offset := true, 0;
      var own := descriptors[hint].owner == core;
      if own && cores[core].bytesUsed + partial > HOMA_BPAGE_SIZE {
        own := RefreshOwned(core);
      } else if !own {
        OwnsNothing(descriptors[..], cores[..], live, core);
      }
      if own {
        offset := BumpOwned(partial, core, now + lease);
      } else {
        ok, offset := NewOwned(partial, core, now, lease);
      }
    }

    /** The owned page is full: starts again if nothing on it is in use,
        otherwise gives it up. */
    method RefreshOwned(core: nat) returns (reused: bool)
      requires Valid() && core < cores.Length
      requires 0 <= cores[core].pageHint < numBpages && descriptors[cores[core].pageHint].owner == core
      modifies descriptors, cores
      ensures Valid() && cores[core].pageHint == old(cores[core].pageHint)
      ensures reused <==> old(descriptors[cores[core].pageHint].refs) == 1
      ensures reused ==> cores[core].bytesUsed == 0 && descriptors[cores[core].pageHint].owner == core
      ensures !reused ==> Owns(descriptors[..], core) == {}
    {
      hide Sound, FreeSet, Sorted, QueueOk, Owns;
      SoundCore(descriptors[..], cores[..], live, {}, core);
      var hint := cores[core].pageHint;
      var bp := descriptors[hint];
      if bp.refs == 1 {
        ReuseOwned(descriptors[..], cores[..], live, core);
        cores[core] := cores[core].(bytesUsed := 0);
        assert cores[..] == old(cores[..])[core := old(cores[core]).(bytesUsed := 0)];
        reused := true;
      } else {
        OwnedRefs(descriptors[..], cores[..], live, hint);
        bp := bp.(owner := -1, refs := bp.refs - 1);
        DropOwned(descriptors[..], cores[..], live, hint, bp);
        descriptors[hint] := bp;
        assert descriptors[..] == old(descriptors[..])[hint := bp];
        reused := false;
      }
    }

    /** Takes the next bytes of the owned page. */
    method BumpOwned(partial: nat, core: nat, expiration: int) returns (offset: nat)
      requires Valid() && core < cores.Length && 0 < partial
      requires 0 <= cores[core].pageHint < numBpages && descriptors[cores[core].pageHint].owner == core
      requires cores[core].bytesUsed + partial <= HOMA_BPAGE_SIZE
      modifies this`live, descriptors, cores
      ensures Valid()
      ensures Buf(offset, partial) !in old(live) && live == old(live) + {Buf(offset, partial)}
      ensures 0 <= old(cores[core].pageHint) < numBpages
      ensures offset == old(cores[core].pageHint) * HOMA_BPAGE_SIZE + old(cores[core].bytesUsed)
      ensures Leased(core, offset, partial, expiration)
    {
      hide Sound, FreeSet, Sorted, QueueOk;
      SoundCore(descriptors[..], cores[..], live, {}, core);
      var hint, used := cores[core].pageHint, cores[core].bytesUsed;
      var bp := descriptors[hint].(expiration := expiration, refs := descriptors[hint].refs + 1);
      UseOwned(descriptors[..], cores[..], live, core, partial, bp);
      descriptors[hint] := bp;
      offset := used + hint * HOMA_BPAGE_SIZE;
      cores[core] := cores[core].(bytesUsed := used + partial);
      live := live + {Buf(offset, partial)};
      assert descriptors[..] == old(descriptors[..])[hint := bp];
      assert cores[..] == old(cores[..])[core := old(cores[core]).(bytesUsed := used + partial)];
    }

    /** Makes another page the core's own and takes its first bytes. */
    method NewOwned(partial: nat, core: nat, now: int, lease: int) returns (ok: bool, offset: nat)
      requires Valid() && core < cores.Length && 0 < partial < HOMA_BPAGE_SIZE && Owns(descriptors[..], core) == {}
      modifies this`freeBpages, this`live, descriptors, cores
      ensures Valid() && (ok <==> old(freeBpages) >= 1)
      ensures !ok ==> live == old(live)
      ensures ok ==> Buf(offset, partial) !in old(live) && live == old(live) + {Buf(offset, partial)}
      ensures ok ==> Leased(core, offset, partial, now + lease)
    {
      hide Sound, FreeSet, Sorted, QueueOk, Pages, Distinct, Owns;
      offset := 0;
      var pages;
      ok, pages := GetPages(1, core, now, lease, true);
      if ok {
        var page := pages[0];
        assert Pages(pages) == {page} by { OnePage(pages); }
        OwnsOne(old(descriptors[..]), descriptors[..], core, page);
        AdoptClaim(descriptors[..], cores[..], live, core, page, partial);
        ghost var c0 := cores[..];
        cores[core] := cores[core].(pageHint := page, bytesUsed := partial);
        assert cores[..] == c0[core := c0[core].(pageHint := page, bytesUsed := partial)];
        UseClaim(descriptors[..], cores[..], live, {page}, page, partial);
        assert {page} - {page} == {};
        offset := page * HOMA_BPAGE_SIZE;
        live := live + {Buf(offset, partial)};
      }
    }

    /** Releases buffers. The contract covers every input; the state is kept
        in order if each of the buffers is in use and none is repeated. */
    method Release(buffers: seq<nat>) returns (ok: bool)
      requires Valid()
      modifies this`freeBpages, this`live, descriptors
      ensures ok <==> !hasRegion || forall k :: 0 <= k < |buffers| ==> buffers[k] / HOMA_BPAGE_SIZE < numBpages
      ensures hasRegion && AllLive(old(live), buffers) ==> Valid() && live == Remaining(old(live), buffers)
      ensures !hasRegion ==> Valid() && live == old(live)
    {
      hide Sound, FreeSet, Sorted, QueueOk, AllLive, Remaining, Separate;
      ok := true;
      if !hasRegion {
        return;
      }
      ghost var good := AllLive(live, buffers);
      NoneReleased(live);
      LiveSeparate(descriptors[..], cores[..], live);
      for n := 0 to |buffers|
        invariant Shape() && (ok <==> forall k :: 0 <= k < n ==> buffers[k] / HOMA_BPAGE_SIZE < numBpages)
        invariant good ==> Sound(descriptors[..], cores[..], live, {}) && freeBpages == |FreeSet(descriptors[..])|
        invariant good ==> live == Remaining(old(live), buffers[..n])
      {
        var index := buffers[n] / HOMA_BPAGE_SIZE;
        if index < numBpages {
          ReleaseOne(index, n, buffers, old(live), good);
        } else {
          assert !good by { if good { InRange(old(descriptors[..]), old(cores[..]), old(live), buffers, n); } }
          ok := false;
        }
      }
      assert buffers[..|buffers|] == buffers;
    }

    /** Drops one reference. */
    method ReleaseOne(index: nat, ghost n: nat, ghost buffers: seq<nat>, ghost before: set<Buf>, ghost good: bool)
      requires Shape() && n < |buffers| && index == buffers[n] / HOMA_BPAGE_SIZE < numBpages
      requires good ==> AllLive(before, buffers) && live == Remaining(before, buffers[..n]) && Separate(before)
      requires good ==> Sound(descriptors[..], cores[..], live, {}) && freeBpages == |FreeSet(descriptors[..])|
      modifies this`freeBpages, this`live, descriptors
      ensures good ==> live == Remaining(before, buffers[..n + 1])
      ensures good ==> Sound(descriptors[..], cores[..], live, {}) && freeBpages == |FreeSet(descriptors[..])|
    {
      hide Sound, FreeSet, AllLive, Remaining, Separate;
      var bp := descriptors[index].(refs := descriptors[index].refs - 1);
      if good {
        ghost var b := RemainingOneMore(before, buffers, n);
        Retire(descriptors[..], cores[..], live, b, bp);
        live := live - {b};
      }
      descriptors[index] := bp;
      assert descriptors[..] == old(descriptors[..])[index := bp];
      if bp.refs == 0 {
        freeBpages := freeBpages + 1;
      }
    }

    /** Puts an RPC into the queue, behind all that are not longer. */
    method Enqueue(rpc: Waiter) returns (ghost at: nat)
      requires QueueOk(waiting, bpagesNeeded) && 0 < rpc.length
      modifies this`waiting, this`bpagesNeeded
      ensures QueueOk(waiting, bpagesNeeded) && waiting != []
      ensures |waiting| == |old(waiting)| + 1 && multiset(waiting) == multiset(old(waiting)) + multiset{rpc}
      ensures at <= |old(waiting)| && waiting == old(waiting)[..at] + [rpc] + old(waiting)[at..]
      ensures forall j :: 0 <= j < at ==> old(waiting)[j].length <= rpc.length
      ensures at < |old(waiting)| ==> rpc.length < old(waiting)[at].length
      ensures bpagesNeeded == PagesFor(waiting[0].length)
    {
      hide PagesFor, QueueOk;
      var k := 0;
      while k < |waiting| && waiting[k].length <= rpc.length
        invariant k <= |waiting| && waiting == old(waiting)
        invariant forall j :: 0 <= j < k ==> waiting[j].length <= rpc.length
      {
        k := k + 1;
      }
      Inserted(waiting, bpagesNeeded, rpc, k);
      waiting := waiting[..k] + [rpc] + waiting[k..];
      bpagesNeeded := PagesFor(waiting[0].length);
      at := k;
    }

    /** Allocates buffers for a message, or queues it. It succeeds if there
        are as many free pages as the message needs. */
    method Allocate(rpc: Waiter, core: nat, now: int, lease: int) returns (r: Allocation)
      requires Valid() && core < cores.Length
      modifies this`freeBpages, this`bpagesNeeded, this`waiting, this`live, descriptors, cores
      ensures Valid() && (r.NoPool? <==> !hasRegion)
      ensures hasRegion && old(freeBpages) >= PagesFor(rpc.length) ==> r.Allocated?
      ensures r.Allocated? ==> waiting == old(waiting) && bpagesNeeded == old(bpagesNeeded)
      ensures r.Allocated? ==> BuffersOk(r.offsets, rpc.length, numBpages * HOMA_BPAGE_SIZE)
      ensures r.Allocated? ==>
        BufsOf(r.offsets, rpc.length) !! old(live) && live == old(live) + BufsOf(r.offsets, rpc.length)
      ensures !r.Allocated? ==> live == old(live)
      ensures r.Queued? ==> multiset(waiting) == multiset(old(waiting)) + multiset{rpc}
      ensures r.Queued? ==> |waiting| == |old(waiting)| + 1 && bpagesNeeded == PagesFor(waiting[0].length)
    {
      hide Sound, FreeSet, Sorted, QueueOk, PagesFor, BuffersOk;
      if !hasRegion {
        return NoPool;
      }
      var fullPages := rpc.length / HOMA_BPAGE_SIZE;
      var partial := rpc.length % HOMA_BPAGE_SIZE;
      PageCount(rpc.length);
      var ok, offsets := AllocateFull(fullPages, core, now, lease);
      if ok && partial != 0 {
        var offset;
        ok, offset := AllocatePartial(partial, core, now, lease);
        if ok {
          LiveSeparate(descriptors[..], cores[..], live);
          BufsAll(offsets, rpc.length, offset, live);
          offsets := offsets + [offset];
        } else {
          Undo(descriptors[..], cores[..], offsets, old(live), live);
          var _ := Release(offsets);
        }
      } else if ok {
        BufsFull(offsets, rpc.length);
      }
      if ok {
        Serves(descriptors[..], cores[..], live, offsets, rpc.length);
        return Allocated(offsets);
      }
      var _ := Enqueue(rpc);
      r := Queued;
    }

    /** Lets waiting RPCs have buffers as long as there are free pages for the
        first one. Afterwards there are not enough for any of them. */
    method CheckWaiting(core: nat, now: int, lease: int) returns (woken: seq<(Waiter, seq<nat>)>)
      requires Valid() && core < cores.Length
      modifies this`freeBpages, this`bpagesNeeded, this`waiting, this`live, descriptors, cores
      ensures Valid()
      ensures hasRegion ==> freeBpages < bpagesNeeded || bpagesNeeded == INT_MAX
      ensures hasRegion ==> forall w :: w in waiting ==> PagesFor(w.length) > freeBpages
      ensures multiset(old(waiting)) == multiset(waiting) + multiset(Rpcs(woken))
      ensures forall k :: 0 <= k < |woken| ==> Served(woken[k], live, numBpages)
      ensures old(live) <= live && NewBufs(woken, old(live))
    {
      hide Sound, FreeSet, Sorted, PagesFor, Served, QueueOk, Rpcs, NewBufs;
      woken := [];
      NoneWoken();
      if !hasRegion {
        return;
      }
      while freeBpages >= bpagesNeeded
        invariant Valid()
        invariant multiset(old(waiting)) == multiset(waiting) + multiset(Rpcs(woken))
        invariant forall k :: 0 <= k < |woken| ==> Served(woken[k], live, numBpages)
        invariant old(live) <= live && NewBufs(woken, old(live))
        decreases |waiting|, if waiting != [] && bpagesNeeded < PagesFor(waiting[0].length) then 1 else 0
      {
        if waiting == [] {
          bpagesNeeded := INT_MAX;
          NobodyWaits(INT_MAX);
          break;
        }
        ghost var before := live;
        var rpc, r := WakeFirst(core, now, lease);
        ServedKept(woken, before, live, numBpages);
        if r.Allocated? {
          NewBufsMore(woken, old(live), before, (rpc, r.offsets), numBpages);
          WokenMore(woken, rpc, r.offsets);
          woken := woken + [(rpc, r.offsets)];
        }
      }
      NoneFits(waiting, bpagesNeeded, freeBpages);
    }

    /** Tries to get buffers for the first RPC. If that fails although there
        seemed to be enough, then `bpagesNeeded` was too small, and is right
        afterwards. */
    method WakeFirst(core: nat, now: int, lease: int) returns (rpc: Waiter, r: Allocation)
      requires Valid() && core < cores.Length && hasRegion && waiting != [] && freeBpages >= bpagesNeeded
      modifies this`freeBpages, this`bpagesNeeded, this`waiting, this`live, descriptors, cores
      ensures Valid() && !r.NoPool? && old(live) <= live
      ensures r.Allocated? ==> BufsOf(r.offsets, rpc.length) !! old(live)
      ensures r.Allocated? ==> |waiting| == |old(waiting)| - 1 && Served((rpc, r.offsets), live, numBpages)
      ensures r.Allocated? ==> multiset(old(waiting)) == multiset(waiting) + multiset{rpc}
      ensures r.Queued? ==> |waiting| == |old(waiting)| && multiset(waiting) == multiset(old(waiting))
      ensures r.Queued? ==> bpagesNeeded == PagesFor(waiting[0].length)
      ensures r.Queued? ==> old(bpagesNeeded) < PagesFor(old(waiting)[0].length)
    {
      hide Sound, FreeSet, Sorted, PagesFor, Served, QueueOk;
      rpc := waiting[0];
      assert waiting == [rpc] + waiting[1..];
      FirstLeaves(waiting, bpagesNeeded);
      waiting := waiting[1..];
      bpagesNeeded := if waiting == [] then INT_MAX else PagesFor(waiting[0].length);
      r := Allocate(rpc, core, now, lease);
      if r.Allocated? {
        ServedNow(rpc, r.offsets, live, numBpages);
      }
    }

    /** A waiting RPC is freed. */
    method Cancel(id: nat)
      requires Valid()
      modifies this`waiting
      ensures Valid() && forall w :: w in waiting <==> w in old(waiting) && w.id != id
    {
      hide Sound, FreeSet, PagesFor;
      var rest := [];
      for k := 0 to |waiting|
        invariant Sorted(rest) && forall w :: w in rest <==> w in waiting[..k] && w.id != id
      {
        assert waiting[..k + 1] == waiting[..k] + [waiting[k]];
        forall w | w in rest ensures w.length <= waiting[k].length {
          var j :| 0 <= j < k && waiting[..k][j] == w;
        }
        if waiting[k].id != id {
          rest := rest + [waiting[k]];
        }
      }
      assert waiting[..|waiting|] == waiting;
      Smaller(waiting, rest);
      waiting := rest;
    }
  }

  datatype InitResult = InitOk | Einval | Enomem

  /** Sets up a pool in the application's region, if that is good enough and
      there is memory for the bookkeeping. */
  method PoolInit(region: nat, regionSize: nat, numCores: nat, descriptorsFit: bool, coresFit: bool)
      returns (result: InitResult, pool: Pool?)
    requires regionSize / HOMA_BPAGE_SIZE < INT_MAX
    ensures result == Einval <==> region % PAGE_SIZE != 0 || regionSize / HOMA_BPAGE_SIZE < MIN_POOL_SIZE
    ensures result == Enomem <==> result != Einval && !(descriptorsFit && coresFit)
    ensures pool == null <==> result != InitOk
    ensures pool != null ==> fresh(pool) && fresh(pool.descriptors) && fresh(pool.cores)
    ensures pool != null ==> pool.Valid() && pool.live == {} && pool.numBpages * HOMA_BPAGE_SIZE <= regionSize
  {
    if region % PAGE_SIZE != 0 {
      return Einval, null;
    }
    var numBpages := regionSize / HOMA_BPAGE_SIZE;
    if numBpages < MIN_POOL_SIZE {
      return Einval, null;
    }
    if !descriptorsFit {
      return Enomem, null;
    }
    if !coresFit {
      return Enomem, null;
    }
    result := InitOk;
    pool := new Pool(numBpages, numCores);
  }

  // ----- Facts used above -----

  /** Whole pages at the offsets. */
  ghost function FullAt(offsets: seq<nat>): set<Buf> {
    set k | 0 <= k < |offsets| :: Buf(offsets[k], HOMA_BPAGE_SIZE)
  }

  ghost predicate Fresh(before: set<Buf>, live: set<Buf>, offsets: seq<nat>) {
    live == before + FullAt(offsets) && FullAt(offsets) !! before && Distinct(offsets)
  }

  lemma PagesInRange(pages: seq<int>, num: nat)
    requires |pages| == num && forall p :: p in Pages(pages) ==> 0 <= p
    ensures forall k :: 0 <= k < num ==> 0 <= pages[k]
  {
    forall k | 0 <= k < num ensures 0 <= pages[k] { assert pages[k] in Pages(pages); }
  }

  lemma FreshPages(before: set<Buf>, pages: seq<int>, offsets: seq<nat>)
    requires |offsets| == |pages| && forall k :: 0 <= k < |pages| ==> offsets[k] == pages[k] * HOMA_BPAGE_SIZE
    requires Distinct(pages) && FullBufs(pages) !! before
    ensures Fresh(before, before + FullBufs(pages), offsets)
  {
    assert FullAt(offsets) == FullBufs(pages);
  }

  lemma OwnsNothing(d: seq<BPage>, cores: seq<Core>, live: set<Buf>, c: nat)
    requires Sound(d, cores, live, {}) && c < |cores| && d[cores[c].pageHint].owner != c
    ensures Owns(d, c) == {}
  {
  }

  lemma OwnedRefs(d: seq<BPage>, cores: seq<Core>, live: set<Buf>, p: int)
    requires Sound(d, cores, live, {}) && 0 <= p < |d| && 0 <= d[p].owner
    ensures d[p].refs >= 1
  {
  }

  lemma OnePage(pages: seq<int>)
    requires |pages| == 1
    ensures Pages(pages) == {pages[0]}
  {
  }

  lemma OwnsOne(d: seq<BPage>, d': seq<BPage>, c: int, p: int)
    requires |d'| == |d| && Owns(d, c) == {} && 0 <= p < |d| && d'[p].owner == c
    requires forall q :: 0 <= q < |d| && q !in {p} ==> d'[q] == d[q]
    ensures Owns(d', c) == {p}
  {
    assert forall q :: 0 <= q < |d| && d[q].owner == c ==> q in Owns(d, c);
  }

  lemma NoneReleased(live: set<Buf>)
    ensures Remaining(live, []) == live
  {
  }

  lemma InRange(d: seq<BPage>, cores: seq<Core>, live: set<Buf>, buffers: seq<nat>, n: nat)
    requires Sound(d, cores, live, {}) && AllLive(live, buffers) && n < |buffers|
    ensures buffers[n] / HOMA_BPAGE_SIZE < |d|
  {
    assert HasOffset(live, buffers[n]);
  }

  lemma PageCount(length: nat)
    ensures PagesFor(length) == length / HOMA_BPAGE_SIZE + if length % HOMA_BPAGE_SIZE != 0 then 1 else 0
    ensures PagesFor(0) == 0
  {
  }

  lemma BufsFull(offsets: seq<nat>, length: nat)
    requires |offsets| == length / HOMA_BPAGE_SIZE
    ensures BufsOf(offsets, length) == FullAt(offsets)
  {
    forall k | 0 <= k < |offsets| ensures ChunkSize(length, k) == HOMA_BPAGE_SIZE {}
  }

  lemma BufsAll(offsets: seq<nat>, length: nat, offset: nat, live: set<Buf>)
    requires |offsets| == length / HOMA_BPAGE_SIZE && length % HOMA_BPAGE_SIZE != 0 && Distinct(offsets)
    requires Separate(live) && FullAt(offsets) <= live && Buf(offset, length % HOMA_BPAGE_SIZE) in live
    ensures Distinct(offsets + [offset])
    ensures BufsOf(offsets + [offset], length) == FullAt(offsets) + {Buf(offset, length % HOMA_BPAGE_SIZE)}
  {
    BufsFull(offsets, length);
    var all := offsets + [offset];
    assert all[|offsets|] == offset && ChunkSize(length, |offsets|) == length % HOMA_BPAGE_SIZE;
    forall k | 0 <= k < |offsets| ensures all[k] == offsets[k] != offset {
      LiveApart(live, Buf(offsets[k], HOMA_BPAGE_SIZE), Buf(offset, length % HOMA_BPAGE_SIZE));
    }
  }

  lemma NoPages()
    ensures Pages([]) == {} && Distinct([])
  {
  }

  lemma AllFree(d: seq<BPage>)
    requires forall p :: 0 <= p < |d| ==> d[p] == BPage(0, -1, 0)
    ensures |FreeSet(d)| == |d|
  {
    TailSize(0, |d|);
    assert FreeSet(d) == set p | 0 <= p < |d| && InTail(p, 0);
  }

  lemma FewerFree(d: seq<BPage>)
    ensures |FreeSet(d)| <= |d|
  {
    TailSize(0, |d|);
    var all := set p | 0 <= p < |d| && InTail(p, 0);
    assert all * FreeSet(d) == FreeSet(d);
    assert |all - FreeSet(d)| + |all * FreeSet(d)| == |all|;
  }

  /** Releasing the whole pages of a message gives back what was before. */
  lemma Undo(d: seq<BPage>, cores: seq<Core>, offsets: seq<nat>, before: set<Buf>, live: set<Buf>)
    requires Sound(d, cores, live, {}) && Fresh(before, live, offsets)
    ensures AllLive(live, offsets) && Remaining(live, offsets) == before
  {
    LiveSeparate(d, cores, live);
    forall k | 0 <= k < |offsets| ensures HasOffset(live, offsets[k]) {
      assert Buf(offsets[k], HOMA_BPAGE_SIZE) in live;
    }
    forall b | b in before ensures b.offset !in offsets {
      if k :| 0 <= k < |offsets| && offsets[k] == b.offset {
        LiveApart(live, b, Buf(offsets[k], HOMA_BPAGE_SIZE));
      }
    }
  }

  lemma Serves(d: seq<BPage>, cores: seq<Core>, live: set<Buf>, offsets: seq<nat>, length: nat)
    requires Sound(d, cores, live, {}) && |offsets| == PagesFor(length) && BufsOf(offsets, length) <= live
    requires Distinct(offsets)
    ensures BuffersOk(offsets, length, |d| * HOMA_BPAGE_SIZE)
  {
    LiveServe(d, cores, live, offsets, length);
  }

  ghost function Rpcs(woken: seq<(Waiter, seq<nat>)>): seq<Waiter> {
    seq(|woken|, k requires 0 <= k < |woken| => woken[k].0)
  }

  /** The RPC has got buffers. */
  ghost predicate Served(w: (Waiter, seq<nat>), live: set<Buf>, n: nat) {
    BuffersOk(w.1, w.0.length, n * HOMA_BPAGE_SIZE) && BufsOf(w.1, w.0.length) <= live
  }

  lemma ServedKept(woken: seq<(Waiter, seq<nat>)>, live: set<Buf>, live': set<Buf>, n: nat)
    requires live <= live' && forall k :: 0 <= k < |woken| ==> Served(woken[k], live, n)
    ensures forall k :: 0 <= k < |woken| ==> Served(woken[k], live', n)
  {
  }

  lemma ServedNow(rpc: Waiter, offsets: seq<nat>, live: set<Buf>, n: nat)
    requires BuffersOk(offsets, rpc.length, n * HOMA_BPAGE_SIZE) && BufsOf(offsets, rpc.length) <= live
    ensures Served((rpc, offsets), live, n)
  {
  }

  lemma WokenMore(woken: seq<(Waiter, seq<nat>)>, rpc: Waiter, offsets: seq<nat>)
    ensures multiset(Rpcs(woken + [(rpc, offsets)])) == multiset(Rpcs(woken)) + multiset{rpc}
  {
    assert Rpcs(woken + [(rpc, offsets)]) == Rpcs(woken) + [rpc];
  }

  /** The buffers given out are new, and different for each RPC. */
  ghost predicate NewBufs(woken: seq<(Waiter, seq<nat>)>, before: set<Buf>) {
    && (forall k :: 0 <= k < |woken| ==> BufsOf(woken[k].1, woken[k].0.length) !! before)
    && (forall j, k :: 0 <= j < k < |woken| ==>
          BufsOf(woken[j].1, woken[j].0.length) !! BufsOf(woken[k].1, woken[k].0.length))
  }

  lemma NewBufsMore(woken: seq<(Waiter, seq<nat>)>, before: set<Buf>, live: set<Buf>, w: (Waiter, seq<nat>), n: nat)
    requires NewBufs(woken, before) && before <= live && BufsOf(w.1, w.0.length) !! live
    requires forall k :: 0 <= k < |woken| ==> Served(woken[k], live, n)
    ensures NewBufs(woken + [w], before)
  {
    hide BufsOf, BuffersOk;
    var more := woken + [w];
    forall k | 0 <= k < |woken| ensures BufsOf(more[k].1, more[k].0.length) <= live { assert Served(woken[k], live, n); }
  }

  lemma NoneWoken()
    ensures Rpcs([]) == [] && forall before :: NewBufs([], before)
  {
  }

  lemma NobodyWaits(needed: int)
    ensures QueueOk([], needed)
  {
  }

  lemma Inserted(waiting: seq<Waiter>, needed: int, rpc: Waiter, k: nat)
    requires QueueOk(waiting, needed) && 0 < rpc.length && k <= |waiting|
    requires forall j :: 0 <= j < k ==> waiting[j].length <= rpc.length
    requires k < |waiting| ==> rpc.length < waiting[k].length
    ensures var more := waiting[..k] + [rpc] + waiting[k..];
      QueueOk(more, PagesFor(more[0].length)) && multiset(more) == multiset(waiting) + multiset{rpc}
  {
    hide PagesFor, Sorted;
    assert waiting == waiting[..k] + waiting[k..];
    InsertedSorted(waiting[..k], waiting[k..], rpc);
  }

  lemma InsertedSorted(front: seq<Waiter>, back: seq<Waiter>, rpc: Waiter)
    requires Sorted(front + back) && (forall w :: w in front ==> w.length <= rpc.length)
    requires back != [] ==> rpc.length < back[0].length
    ensures Sorted(front + [rpc] + back)
  {
    var all, more := front + back, front + [rpc] + back;
    assert more[|front|] == rpc;
    forall i, j | 0 <= i < j < |more| ensures more[i].length <= more[j].length {
      if i < |front| { assert more[i] == all[i] && more[i] in front; }
      if j < |front| { assert more[j] == all[j]; } else if j > |front| { assert more[j] == all[j - 1]; }
      if i > |front| { assert more[i] == all[i - 1]; }
      if i == |front| { assert back[0] == all[|front|] && all[|front|].length <= all[j - 1].length; }
    }
  }

  lemma FirstLeaves(waiting: seq<Waiter>, needed: int)
    requires QueueOk(waiting, needed) && waiting != []
    ensures QueueOk(waiting[1..], if waiting[1..] == [] then INT_MAX else PagesFor(waiting[1].length))
    ensures 0 < waiting[0].length
  {
  }

  lemma NoneFits(waiting: seq<Waiter>, needed: int, free: int)
    requires QueueOk(waiting, needed) && (waiting == [] || free < needed)
    ensures forall w :: w in waiting ==> PagesFor(w.length) > free
  {
    forall w | w in waiting ensures PagesFor(w.length) > free {
      var k :| 0 <= k < |waiting| && waiting[k] == w;
      PagesMonotone(waiting[0].length, w.length);
    }
  }

  lemma PagesMonotone(a: nat, b: nat)
    requires a <= b
    ensures PagesFor(a) <= PagesFor(b)
  {
  }

  /** Dropping entries keeps the bound for the first one. */
  lemma Smaller(waiting: seq<Waiter>, rest: seq<Waiter>)
    requires Sorted(waiting) && forall w :: w in rest ==> w in waiting
    ensures rest != [] ==> waiting != [] && PagesFor(waiting[0].length) <= PagesFor(rest[0].length)
  {
    if rest != [] {
      assert rest[0] in waiting;
      var k :| 0 <= k < |waiting| && waiting[k] == rest[0];
      PagesMonotone(waiting[0].length, rest[0].length);
    }
  }

  // ----- Runs -----

  /** A message with its buffers. */
  datatype Message = Message(length: nat, offsets: seq<nat>)

  datatype Op =
    | Receive(rpc: Waiter, core: nat, now: int)    // a new message needs buffers
    | Return(id: nat)                              // the application returns the buffers
    | Check(core: nat, now: int)
    | Free(id: nat)                                // the RPC is freed, also while waiting

  ghost predicate Held(messages: map<nat, Message>, live: set<Buf>, n: nat) {
    && (forall id :: id in messages ==>
          BuffersOk(messages[id].offsets, messages[id].length, n * HOMA_BPAGE_SIZE) && BufsIn(messages[id]) <= live)
    && (forall i, j :: i in messages && j in messages && i != j ==> BufsIn(messages[i]) !! BufsIn(messages[j]))
  }

  ghost function BufsIn(m: Message): set<Buf> {
    BufsOf(m.offsets, m.length)
  }

  /** The messages with buffers, and those that wait for them, at one point. */
  datatype State = State(messages: map<nat, Message>, waiting: seq<Waiter>, live: set<Buf>, freeBpages: int)

  /** What an operation does. */
  ghost predicate Does(v: State, op: Op, numCores: nat, v': State) {
    match op
    case Receive(rpc, core, _) =>
      core < numCores && rpc.id !in v.messages ==>
        if rpc.id in v'.messages then
          && v'.messages == v.messages[rpc.id := v'.messages[rpc.id]] && v'.messages[rpc.id].length == rpc.length
          && v'.live == v.live + BufsIn(v'.messages[rpc.id]) && BufsIn(v'.messages[rpc.id]) !! v.live
          && v'.waiting == v.waiting
        else
          && v'.messages == v.messages && v'.live == v.live && v.freeBpages < PagesFor(rpc.length)
          && multiset(v'.waiting) == multiset(v.waiting) + multiset{rpc}
    case Return(id) =>
      && v'.messages == v.messages - {id} && v'.waiting == v.waiting
      && v'.live == if id in v.messages then v.live - BufsIn(v.messages[id]) else v.live
    case Check(core, _) =>
      core < numCores ==>
        && (forall w :: w in v'.waiting ==> PagesFor(w.length) > v'.freeBpages)
        && (forall w :: w in v.waiting && w !in v'.waiting ==> w.id in v'.messages)
        && v.live <= v'.live
    case Free(id) =>
      && v'.messages == v.messages - {id} && (forall w :: w in v'.waiting <==> w in v.waiting && w.id != id)
      && v'.live == if id in v.messages then v.live - BufsIn(v.messages[id]) else v.live
  }

  class Socket {
    const pool: Pool
    var messages: map<nat, Message>        // that have buffers

    ghost predicate Inv()
      reads this, pool, pool.descriptors, pool.cores
    {
      pool.Valid() && pool.hasRegion && Held(messages, pool.live, pool.numBpages)
    }

    ghost function View(): State
      reads this, pool
    {
      State(messages, pool.waiting, pool.live, pool.freeBpages)
    }

    /** Sets up the pool in the application's region. */
    constructor (numBpages: nat, numCores: nat)
      requires MIN_POOL_SIZE <= numBpages < INT_MAX
      ensures Inv() && messages == map[] && fresh(pool) && fresh(pool.descriptors) && fresh(pool.cores)
    {
      pool := new Pool(numBpages, numCores);
      messages := map[];
    }

    method Add(id: nat, length: nat, offsets: seq<nat>, ghost before: set<Buf>)
      requires pool.Valid() && pool.hasRegion && before <= pool.live && Held(messages, before, pool.numBpages)
      requires BuffersOk(offsets, length, pool.numBpages * HOMA_BPAGE_SIZE)
      requires BufsOf(offsets, length) !! before && BufsOf(offsets, length) <= pool.live
      modifies this`messages
      ensures messages == old(messages)[id := Message(length, offsets)]
      ensures Held(messages, before + BufsOf(offsets, length), pool.numBpages)
    {
      hide BuffersOk, BufsOf;
      messages := messages[id := Message(length, offsets)];
    }

    method Handle(op: Op, lease: int)
      requires Inv()
      modifies this`messages, pool, pool.descriptors, pool.cores
      ensures Inv()
      ensures Does(old(View()), op, pool.cores.Length, View())
    {
      hide BuffersOk, BufsOf, Sound, FreeSet, QueueOk, PagesFor;
      match op {
        case Receive(rpc, core, now) =>
          if core < pool.cores.Length && rpc.id !in messages {
            ghost var before := pool.live;
            var r := pool.Allocate(rpc, core, now, lease);
            if r.Allocated? {
              Add(rpc.id, rpc.length, r.offsets, before);
            } else {
              assert rpc in multiset(pool.waiting);
            }
          }
        case Return(id) =>
          Discard(id);
        case Check(core, now) =>
          if core < pool.cores.Length {
            Wake(core, now, lease);
          }
        case Free(id) =>
          pool.Cancel(id);
          Discard(id);
      }
    }

    method Wake(core: nat, now: int, lease: int)
      requires Inv() && core < pool.cores.Length
      modifies this`messages, pool, pool.descriptors, pool.cores
      ensures Inv()
      ensures forall w :: w in pool.waiting ==> PagesFor(w.length) > pool.freeBpages
      ensures forall w :: w in old(pool.waiting) && w !in pool.waiting ==> w.id in messages
      ensures old(pool.live) <= pool.live
    {
      hide BuffersOk, BufsOf, Sound, FreeSet, QueueOk, Held, PagesFor;
      ghost var before := pool.live;
      var woken := pool.CheckWaiting(core, now, lease);
      ghost var given := before;
      for k := 0 to |woken|
        modifies this`messages
        invariant Usable() && before <= given <= pool.live && Held(messages, given, pool.numBpages)
        invariant forall j :: 0 <= j < k ==> woken[j].0.id in messages
        invariant forall j :: k <= j < |woken| ==> BufsOf(woken[j].1, woken[j].0.length) !! given
      {
        var (rpc, offsets) := woken[k];
        assert Served(woken[k], pool.live, pool.numBpages);
        Add(rpc.id, rpc.length, offsets, given);
        LaterNew(woken, before, given, k);
        given := given + BufsOf(offsets, rpc.length);
      }
      HeldMore(messages, given, pool.live, pool.numBpages);
      forall w | w in old(pool.waiting) && w !in pool.waiting ensures w.id in messages {
        WokenIs(old(pool.waiting), pool.waiting, woken, w);
      }
    }

    lemma AllApart()
      requires Inv()
      ensures forall i, j :: i in messages && j in messages && i != j ==> PlacesApart(messages[i], messages[j])
    {
      hide Held, Sound, PlacesApart;
      forall i, j | i in messages && j in messages && i != j ensures PlacesApart(messages[i], messages[j]) {
        LiveSeparate(pool.descriptors[..], pool.cores[..], pool.live);
        HeldApart(messages, pool.live, pool.numBpages, i, j);
      }
    }

    ghost predicate Usable()
      reads this, pool, pool.descriptors, pool.cores
    {
      pool.Valid() && pool.hasRegion
    }

    /** Releases the buffers of a message. */
    method Discard(id: nat)
      requires Inv()
      modifies this`messages, pool`freeBpages, pool`live, pool.descriptors
      ensures Inv() && messages == old(messages) - {id}
      ensures pool.live == if id in old(messages) then old(pool.live) - BufsIn(old(messages)[id]) else old(pool.live)
    {
      hide BuffersOk, Sound, FreeSet, QueueOk;
      if id in messages {
        var m := messages[id];
        LiveSeparate(pool.descriptors[..], pool.cores[..], pool.live);
        MessageLive(m, pool.live, pool.numBpages);
        ghost var before := pool.live;
        var _ := pool.Release(m.offsets);
        OthersHeld(messages, id, before, pool.numBpages);
        RemainingIs(m, before);
      }
      messages := messages - {id};
    }

    /** Every sequence of operations on any cores. At the end, as at any
        point: messages do not overlap; each lies in the region, in parts that
        do not cross a page; references and free pages are counted right; and
        no core owns a page except the one in its hint. */
    method Run(ops: seq<Op>, lease: int) returns (ghost trace: seq<State>)
      requires Inv()
      modifies this`messages, pool, pool.descriptors, pool.cores
      ensures Inv()
      ensures |trace| == |ops| + 1 && trace[0] == old(View()) && trace[|ops|] == View()
      ensures forall k :: 0 <= k < |ops| ==> Does(trace[k], ops[k], pool.cores.Length, trace[k + 1])
      ensures forall k, i, j :: 0 <= k <= |ops| && i in trace[k].messages && j in trace[k].messages && i != j ==>
        PlacesApart(trace[k].messages[i], trace[k].messages[j])
      ensures forall p :: 0 <= p < pool.numBpages ==>
        pool.descriptors[p].refs == |OnPage(pool.live, p)| + Indicator(pool.descriptors[p].owner >= 0)
      ensures pool.freeBpages == |set p | 0 <= p < pool.numBpages && pool.descriptors[p].refs == 0|
      ensures forall p :: 0 <= p < pool.numBpages && pool.descriptors[p].owner >= 0 ==>
        pool.descriptors[p].owner < pool.cores.Length && pool.cores[pool.descriptors[p].owner].pageHint == p
      ensures forall b :: b in pool.live ==> InOnePage(b, pool.numBpages)
    {
      hide Held, Sound, FreeSet, QueueOk, Does, PlacesApart;
      trace := [View()];
      AllApart();
      for n := 0 to |ops|
        invariant Inv()
        invariant |trace| == n + 1 && trace[0] == old(View()) && trace[n] == View()
        invariant forall k :: 0 <= k < n ==> Does(trace[k], ops[k], pool.cores.Length, trace[k + 1])
        invariant forall k, i, j :: 0 <= k <= n && i in trace[k].messages && j in trace[k].messages && i != j ==>
          PlacesApart(trace[k].messages[i], trace[k].messages[j])
      {
        Handle(ops[n], lease);
        AllApart();
        trace := trace + [View()];
      }
      SoundRefs(pool.descriptors[..], pool.cores[..], pool.live);
      assert (set p | 0 <= p < pool.numBpages && pool.descriptors[p].refs == 0) == FreeSet(pool.descriptors[..]);
    }
  }

  lemma WokenIs(before: seq<Waiter>, after: seq<Waiter>, woken: seq<(Waiter, seq<nat>)>, w: Waiter)
    requires multiset(before) == multiset(after) + multiset(Rpcs(woken)) && w in before && w !in after
    ensures exists j :: 0 <= j < |woken| && woken[j].0 == w
  {
    assert w in multiset(before) && w !in multiset(after);
    assert w in Rpcs(woken);
    var j :| 0 <= j < |Rpcs(woken)| && Rpcs(woken)[j] == w;
    assert woken[j].0 == w;
  }

  /** No byte of one message is stored where a byte of the other is. */
  ghost predicate PlacesApart(m: Message, m': Message) {
    forall a, b :: 0 <= a < m.length && 0 <= b < m'.length ==> AddrOf(m.offsets, a) != AddrOf(m'.offsets, b)
  }

  lemma SoundRefs(d: seq<BPage>, cores: seq<Core>, live: set<Buf>)
    requires Sound(d, cores, live, {})
    ensures forall p :: 0 <= p < |d| ==> d[p].refs == |OnPage(live, p)| + Indicator(d[p].owner >= 0)
    ensures FreeSet(d) == set p | 0 <= p < |d| && d[p].refs == 0
    ensures forall p :: 0 <= p < |d| && d[p].owner >= 0 ==> d[p].owner < |cores| && cores[d[p].owner].pageHint == p
    ensures forall b :: b in live ==> InOnePage(b, |d|)
  {
  }

  lemma HeldApart(messages: map<nat, Message>, live: set<Buf>, n: nat, i: nat, j: nat)
    requires Held(messages, live, n) && Separate(live)
    requires i in messages && j in messages && i != j
    ensures PlacesApart(messages[i], messages[j])
  {
    hide AddrOf;
    var m, m' := messages[i], messages[j];
    forall a, b | 0 <= a < m.length && 0 <= b < m'.length ensures AddrOf(m.offsets, a) != AddrOf(m'.offsets, b) {
      MessagesApart(live, m.offsets, m.length, m'.offsets, m'.length, a, b);
    }
  }

  lemma HeldMore(messages: map<nat, Message>, live: set<Buf>, live': set<Buf>, n: nat)
    requires Held(messages, live, n) && live <= live'
    ensures Held(messages, live', n)
  {
    hide BuffersOk;
  }

  lemma LaterNew(woken: seq<(Waiter, seq<nat>)>, before: set<Buf>, given: set<Buf>, k: nat)
    requires NewBufs(woken, before) && k < |woken|
    requires forall j :: k <= j < |woken| ==> BufsOf(woken[j].1, woken[j].0.length) !! given
    ensures forall j :: k < j < |woken| ==>
      BufsOf(woken[j].1, woken[j].0.length) !! given + BufsOf(woken[k].1, woken[k].0.length)
  {
    hide BufsOf;
  }

  lemma MessageLive(m: Message, live: set<Buf>, n: nat)
    requires BuffersOk(m.offsets, m.length, n * HOMA_BPAGE_SIZE) && BufsIn(m) <= live && Separate(live)
    ensures AllLive(live, m.offsets)
  {
    forall k | 0 <= k < |m.offsets| ensures HasOffset(live, m.offsets[k]) && 0 < ChunkSize(m.length, k) {
      assert Buf(m.offsets[k], ChunkSize(m.length, k)) in BufsIn(m);
    }
  }

  /** Exactly the buffers of the message are gone. */
  lemma RemainingIs(m: Message, live: set<Buf>)
    requires BufsIn(m) <= live && Separate(live)
    ensures Remaining(live, m.offsets) == live - BufsIn(m)
  {
    hide ChunkSize;
    forall b | b in live ensures b.offset in m.offsets <==> b in BufsIn(m) {
      if k :| 0 <= k < |m.offsets| && m.offsets[k] == b.offset {
        var a := Buf(m.offsets[k], ChunkSize(m.length, k));
        assert a in BufsIn(m);
        if a != b { LiveApart(live, a, b); }
      }
    }
  }

  lemma OthersHeld(messages: map<nat, Message>, id: nat, live: set<Buf>, n: nat)
    requires Held(messages, live, n) && id in messages && Separate(live)
    ensures Held(messages - {id}, Remaining(live, messages[id].offsets), n)
  {
    hide BuffersOk, ChunkSize;
    var m := messages[id];
    forall i | i in messages && i != id ensures BufsIn(messages[i]) <= Remaining(live, m.offsets) {
      forall b | b in BufsIn(messages[i]) ensures b.offset !in m.offsets {
        if k :| 0 <= k < |m.offsets| && m.offsets[k] == b.offset {
          var a := Buf(m.offsets[k], ChunkSize(m.length, k));
          assert a in BufsIn(m);
          LiveApart(live, a, b);
        }
      }
    }
  }
}
