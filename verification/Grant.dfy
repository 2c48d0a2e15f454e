/** The grant scheduler: which incoming messages may be sent to, and how much
    each of them is granted. */
module Grant {
  import opened RankedList
  import opened Sequences
  import opened GrantState

  const HOMA_MAX_GRANTS := 10

  /** What can happen to the scheduler. */
  datatype Event =
    | NewMessage(rpc: Id, peer: Id, length: nat, unscheduled: int, numBpages: nat)
    | Data(rpc: Id, bytes: nat)
    | Check(rpc: Id, now: nat)
    | Timer(rpc: Id)
    | Buffers(rpc: Id, numBpages: nat)
    | Free(rpc: Id)

  /** The bytes that a new message may be sent without a grant; other events
      bring none. */
  function Unscheduled(e: Event): nat {
    if !e.NewMessage? || e.numBpages == 0 || e.unscheduled < 0 then 0
    else if e.unscheduled > e.length then e.length
    else e.unscheduled
  }

  /** The unscheduled bytes that events `i` to `j` bring. */
  ghost function NewBytes(events: seq<Event>, i: nat, j: nat): nat
    requires i <= j <= |events|
  {
    if i == j then 0 else NewBytes(events, i, j - 1) + Unscheduled(events[j - 1])
  }

  lemma {:induction false} NoNewBytes(events: seq<Event>)
    requires forall e :: e in events ==> !e.NewMessage?
    ensures forall i, j :: 0 <= i <= j <= |events| ==> NewBytes(events, i, j) == 0
  {
    forall i, j | 0 <= i <= j <= |events| ensures NewBytes(events, i, j) == 0 {
      NoNewBytesIn(events, i, j);
    }
  }

  lemma {:induction false} NoNewBytesIn(events: seq<Event>, i: nat, j: nat)
    requires i <= j <= |events| && forall e :: e in events ==> !e.NewMessage?
    ensures NewBytes(events, i, j) == 0
  {
    if i < j { NoNewBytesIn(events, i, j - 1); }
  }

  /** Neither the debt nor, with the debt added, the total above the limit has
      risen between any two states by more than the new messages brought. */
  ghost predicate Bounded(events: seq<Event>, totals: seq<int>, debts: seq<int>, maxIncoming: int) {
    && |totals| == |debts| <= |events| + 1
    && forall i, j :: 0 <= i <= j < |totals| ==>
         && 0 <= debts[j] <= debts[i] + NewBytes(events, i, j)
         && AtLeast(totals[j], maxIncoming) + debts[j] <= AtLeast(totals[i], maxIncoming) + debts[i] + NewBytes(events, i, j)
  }

  lemma NothingBoundedYet(events: seq<Event>, total: int, debt: nat, maxIncoming: int)
    ensures Bounded(events, [total], [debt], maxIncoming)
  {
  }

  lemma BoundedOneMore(events: seq<Event>, totals: seq<int>, debts: seq<int>, maxIncoming: int, total: int, debt: nat)
    requires Bounded(events, totals, debts, maxIncoming) && 0 < |totals| <= |events|
    requires var k, more := |totals| - 1, Unscheduled(events[|totals| - 1]);
      && debt <= debts[k] + more
      && AtLeast(total, maxIncoming) + debt <= AtLeast(totals[k], maxIncoming) + debts[k] + more
    ensures Bounded(events, totals + [total], debts + [debt], maxIncoming)
  {
    hide AtLeast, Unscheduled;
    var k := |totals| - 1;
    forall i | 0 <= i <= k ensures NewBytes(events, i, k + 1) == NewBytes(events, i, k) + Unscheduled(events[k])
                                && debts[k] <= debts[i] + NewBytes(events, i, k) {}
  }

  /** What the bound says for a run, and for one without new messages. */
  lemma BoundedFacts(events: seq<Event>, totals: seq<int>, debts: seq<int>, maxIncoming: int)
    requires Bounded(events, totals, debts, maxIncoming) && |totals| == |events| + 1
    ensures forall i, j :: 0 <= i <= j <= |events| ==>
      && debts[j] <= debts[i] + NewBytes(events, i, j)
      && totals[j] <= AtLeast(totals[i], maxIncoming) + debts[i] + NewBytes(events, i, j)
    ensures debts[0] == 0 && (forall e :: e in events ==> !e.NewMessage?) ==>
      && debts[|events|] == 0
      && forall i, j :: 0 <= i < j < |totals| ==> totals[j] <= maxIncoming || totals[j] <= totals[i]
  {
    if forall e :: e in events ==> !e.NewMessage? {
      NoNewBytes(events);
    }
  }

  /** The messages and their lists, what they are granted, and what is counted
      for them, at one point. */
  datatype State = State(msgs: map<Id, MsgIn>, lists: map<Id, seq<Id>>, totalIncoming: int, sent: seq<GrantPkt>)

  /** What an event does; events about messages that do not exist do nothing. */
  ghost predicate Does(v: State, e: Event, v': State) {
    match e
    case NewMessage(r, peer, length, unscheduled, numBpages) =>
      r !in v.msgs && (forall i :: 0 <= i < |v.sent| ==> v.sent[i].rpc != r) ==>
        var granted := if numBpages == 0 then 0 else if unscheduled > length then length else unscheduled;
        v'.msgs == v.msgs[r := MsgIn(peer, length, length, granted, 0, -1, 0, false, 0, 0, numBpages)]
    case Data(r, n) =>
      r in v.msgs ==> v'.msgs == v.msgs[r := v.msgs[r].(bytesRemaining := v.msgs[r].bytesRemaining - n, silentTicks := 0)]
    case Check(r, _) =>
      r in v.msgs ==>
        && r in v'.msgs && OnlyGrantsChanged(v.msgs[r := v.msgs[r].(birth := v'.msgs[r].birth)], v'.msgs)
        && if v.msgs[r].numBpages == 0 then v'.msgs == v.msgs && v'.sent == v.sent
           else UpToDate(v'.msgs[r]) && (v'.msgs[r].granted < v'.msgs[r].length ==> InList(v'.msgs, v'.lists, r))
    case Timer(r) =>
      r in v.msgs ==> v'.msgs == v.msgs[r := v.msgs[r].(silentTicks := v.msgs[r].silentTicks + 1)]
    case Buffers(r, n) =>
      r in v.msgs ==> v'.msgs == v.msgs[r := v.msgs[r].(numBpages := n, resendAll := true)]
    case Free(r) =>
      r in v.msgs ==> OnlyGrantsChanged(v.msgs - {r}, v'.msgs)
  }

  /** The total is the sum of the contributions, and GRANT offsets of a message
      increase within its length. */
  ghost predicate Counted(v: State) {
    v.totalIncoming == SumRec(v.msgs) && GrantsAdvance(v.sent, v.msgs)
  }

  /** The scheduler's part of the transport's global state. */
  class Homa {
    // Configuration.
    const maxIncoming: int
    const windowParam: int
    const maxOvercommit: nat
    const maxRpcsPerPeer: int
    const maxSchedPrio: int

    // Live incoming messages, and the two-level list of those not fully granted.
    var msgs: map<Id, MsgIn>
    var lists: map<Id, seq<Id>>
    var peers: seq<Id>
    var numGrantable: int

    var totalIncoming: int
    var grantWindow: int

    // The messages currently granted to, highest priority first.
    var numActive: nat
    const active: array<Id>
    var activeRemaining: seq<int>

    // GRANT packets sent, in order.
    var sent: seq<GrantPkt>

    constructor (maxIncoming: int, windowParam: int, maxOvercommit: nat, maxRpcsPerPeer: int, maxSchedPrio: int)
      requires 1 <= maxOvercommit <= HOMA_MAX_GRANTS
      ensures Valid() && fresh(active)
      ensures msgs == map[] && sent == [] && totalIncoming == 0 && Debt(msgs) == 0
      ensures this.maxIncoming == maxIncoming && this.windowParam == windowParam && this.maxOvercommit == maxOvercommit
      ensures this.maxRpcsPerPeer == maxRpcsPerPeer && this.maxSchedPrio == maxSchedPrio
      ensures grantWindow == 0 && numActive == 0 && forall k :: 0 <= k < |activeRemaining| ==> activeRemaining[k] == 0
    {
      this.maxIncoming, this.windowParam, this.maxOvercommit := maxIncoming, windowParam, maxOvercommit;
      this.maxRpcsPerPeer, this.maxSchedPrio := maxRpcsPerPeer, maxSchedPrio;
      msgs, lists, peers, sent := map[], map[], [], [];
      assert Owing(map[]) == map[];
      numGrantable, totalIncoming, grantWindow, numActive := 0, 0, 0, 0;
      active := new Id[HOMA_MAX_GRANTS];
      activeRemaining := seq(HOMA_MAX_GRANTS, _ => 0);
    }

    ghost predicate ListsValid()
      reads this
    {
      && Linked(msgs, lists, peers)
      && numGrantable == |GrantableSet(msgs, lists)|
    }

    /** The active array names exactly the messages with a rank. */
    ghost predicate ActiveValid()
      reads this, active
    {
      && active.Length == |activeRemaining| == HOMA_MAX_GRANTS
      && 1 <= maxOvercommit <= HOMA_MAX_GRANTS
      && numActive <= maxOvercommit
      && Distinct(active[..numActive]) && RanksNamed(msgs, active[..numActive])
    }

    /** What holds even while the active messages are being recomputed. */
    ghost predicate Consistent()
      reads this, active
    {
      && ListsValid() && ActiveValid()
      && totalIncoming == SumRec(msgs) && Contributing(msgs)
      && GrantsAdvance(sent, msgs)
    }

    /** The state between any two operations: no active entry is left over
        from a message that is gone or fully granted. */
    ghost predicate Valid()
      reads this, active
    {
      Consistent() && forall i :: 0 <= i < numActive ==> InList(msgs, lists, active[i])
    }

    ghost function View(): State
      reads this
    {
      State(msgs, lists, totalIncoming, sent)
    }

    /** The total, but not below the limit, with everything that recording may
        still add to it: what only new messages can raise. */
    ghost function Exposure(): int
      reads this`totalIncoming, this`msgs
    {
      AtLeast(totalIncoming, maxIncoming) + Debt(msgs)
    }

    // ----- Recording what is outstanding -----

    /** Brings `r`'s contribution to the total up to date; `dropped` reports
        that the total fell below the limit from at or above it. */
    method UpdateIncoming(r: Id) returns (dropped: bool)
      requires r in msgs
      requires totalIncoming == SumRec(msgs)
      modifies this`msgs, this`totalIncoming
      ensures msgs == old(msgs)[r := old(msgs)[r].(recIncoming := Incoming(old(msgs)[r]))]
      ensures totalIncoming == old(totalIncoming) - old(msgs)[r].recIncoming + Incoming(old(msgs)[r])
      ensures totalIncoming == SumRec(msgs)
      ensures dropped <==> old(totalIncoming) >= maxIncoming && totalIncoming < maxIncoming
    {
      var incoming := msgs[r].granted - (msgs[r].length - msgs[r].bytesRemaining);
      dropped := false;
      if incoming < 0 {
        incoming := 0;
      }
      SumRecUpdate(msgs, r, msgs[r].(recIncoming := incoming));
      if incoming != msgs[r].recIncoming {
        var delta := incoming - msgs[r].recIncoming;
        var before := totalIncoming;
        totalIncoming := totalIncoming + delta;
        msgs := msgs[r := msgs[r].(recIncoming := incoming)];
        dropped := before >= maxIncoming && before + delta < maxIncoming;
      }
      assert msgs == old(msgs)[r := old(msgs)[r].(recIncoming := incoming)];
    }

    // ----- The grantable lists -----

    /** Puts `r` where it belongs in its peer's list. */
    method PositionRpc(r: Id, now: nat)
      requires r in msgs && ListsValid()
      modifies this`msgs, this`lists, this`numGrantable
      ensures msgs == old(msgs)[r := if InList(old(msgs), old(lists), r) then old(msgs)[r]
                                     else old(msgs)[r].(birth := now)]
      ensures InPlace(old(msgs), msgs, old(lists), lists, r)
      ensures old(OrderedExcept(msgs, lists, peers, r)) ==> Sorted(ListOf(lists, msgs[r].peer), Ranks(msgs))
      ensures numGrantable == old(numGrantable) + if InList(old(msgs), old(lists), r) then 0 else 1
    {
      var p := msgs[r].peer;
      var list := ListOf(lists, p);
      if r !in list {
        var i := FindSlot(list, Rank(msgs[r].bytesRemaining, now), Ranks(msgs));
        RpcInserted(msgs, lists, peers, r, now, i);
        numGrantable := numGrantable + 1;
        msgs := msgs[r := msgs[r].(birth := now)];
        lists := lists[p := list[..i] + [r] + list[i..]];
      } else {
        var at := IndexOf(list, r);
        var t, i := MoveUp(list, at, RankOf(Ranks(msgs), r), Ranks(msgs));
        RpcRepositioned(msgs, lists, peers, r, at, i, t);
        lists := lists[p := t];
      }
    }

    /** Puts `r`'s peer where it belongs among the peers. */
    method PositionPeer(r: Id, ghost msgs0: map<Id, MsgIn>, ghost lists0: map<Id, seq<Id>>)
      requires Linked(msgs0, lists0, peers) && InPlace(msgs0, msgs, lists0, lists, r)
      modifies this`peers
      ensures SameRest(old(peers), peers, msgs[r].peer)
      ensures OrderedExcept(msgs0, lists0, old(peers), r) && Sorted(ListOf(lists, msgs[r].peer), Ranks(msgs)) ==>
        Sorted(peers, HeadRanks(msgs, lists))
    {
      var p, k, heads := msgs[r].peer, RankOf(Ranks(msgs), r), HeadRanks(msgs, lists);
      if p !in peers {
        var i := FindSlot(peers, k, heads);
        InsertedKeepsRest(peers, p, i);
        if OrderedExcept(msgs0, lists0, peers, r) {
          PeerInserted(msgs0, msgs, lists0, lists, peers, r, i);
        }
        peers := peers[..i] + [p] + peers[i..];
      } else {
        var at := IndexOf(peers, p);
        var t, i := MoveUp(peers, at, k, heads);
        MovedKeepsRest(peers, at, i, t);
        if OrderedExcept(msgs0, lists0, peers, r) && Sorted(ListOf(lists, p), Ranks(msgs)) {
          PeerRepositioned(msgs0, msgs, lists0, lists, peers, r, at, i, t);
        }
        peers := t;
      }
    }

    /** Makes sure that `r` is in its peer's list and that its peer is linked,
        both in the right place. */
    method AddRpc(r: Id, now: nat)
      requires r in msgs && ListsValid()
      modifies this`msgs, this`lists, this`peers, this`numGrantable
      ensures ListsValid()
      ensures msgs == old(msgs)[r := if InList(old(msgs), old(lists), r) then old(msgs)[r]
                                     else old(msgs)[r].(birth := now)]
      // Nothing but r, and its peer at the upper level, has moved.
      ensures GrantableSet(msgs, lists) == old(GrantableSet(msgs, lists)) + {r}
      ensures lists == old(lists)[msgs[r].peer := ListOf(lists, msgs[r].peer)]
      ensures SameRest(ListOf(old(lists), msgs[r].peer), ListOf(lists, msgs[r].peer), r)
      ensures SameRest(old(peers), peers, msgs[r].peer)
      // Both levels end up in order: shortest first, then oldest.
      ensures old(OrderedExcept(msgs, lists, peers, r)) ==> Ordered(msgs, lists, peers)
      ensures forall p :: p in peers ==> ListOf(lists, p) != []
      ensures old(OrderedExcept(msgs, lists, peers, r)) ==>
        (forall p :: p in lists ==> ShortestFirst(msgs, lists[p])) && ShortestFirst(msgs, Heads(lists, peers))
    {
      hide ShortestFirst, Heads;
      PositionRpc(r, now);
      PositionPeer(r, old(msgs), old(lists));
      LinkedAfterAdd(old(msgs), msgs, old(lists), lists, old(peers), peers, r);
      GrantableAfterAdd(old(msgs), msgs, old(lists), lists, r);
      if old(OrderedExcept(msgs, lists, peers, r)) {
        OrderedAfterAdd(old(msgs), msgs, old(lists), lists, old(peers), peers, r);
      }
      OrderedMeans(msgs, lists, peers);
    }

    /** Unlinks `r`, and its peer if that leaves the peer without RPCs. */
    method RemoveRpc(r: Id)
      requires r in msgs && ListsValid()
      modifies this`lists, this`peers, this`numGrantable
      ensures ListsValid()
      ensures GrantableSet(msgs, lists) == old(GrantableSet(msgs, lists)) - {r}
      ensures !InList(msgs, old(lists), r) ==> lists == old(lists) && peers == old(peers)
      ensures InList(msgs, old(lists), r) ==>
        && lists == old(lists)[msgs[r].peer := Without(old(lists)[msgs[r].peer], r)]
        && PeersAfterRemoval(msgs, old(lists), lists, old(peers), peers, r)
    {
      hide Linked, PeersAfterRemoval, Distinct, Without;
      if InList(msgs, lists, r) {
        LinkedPeer(msgs, lists, peers, msgs[r].peer);
        var list := Unlink(lists[msgs[r].peer], r);
        var lists' := lists[msgs[r].peer := list];
        GrantableAfterRemove(msgs, lists, lists', r);
        var peers' := peers;
        if lists[msgs[r].peer][0] == r {
          peers' := LowerPeer(r, lists');
        } else {
          RemovedOther(msgs, lists, lists', peers, r);
        }
        lists, peers, numGrantable := lists', peers', numGrantable - 1;
      }
    }

    /** Where the peers go when the head `r` of one of them is removed. */
    method LowerPeer(r: Id, lists': map<Id, seq<Id>>) returns (peers': seq<Id>)
      requires Linked(msgs, lists, peers) && InList(msgs, lists, r) && lists[msgs[r].peer][0] == r
      requires lists' == lists[msgs[r].peer := Without(lists[msgs[r].peer], r)]
      ensures PeersAfterRemoval(msgs, lists, lists', peers, peers', r)
    {
      var p := msgs[r].peer;
      var pi := IndexOf(peers, p);
      assert lists'[p] == lists[p][1..] by { SplitAt(lists[p], 0); }
      if lists'[p] == [] {
        assert lists[p] == [r];
        peers' := peers[..pi] + peers[pi + 1..];
        assert peers' == Without(peers, p) by { SplitAt(peers, pi); }
        RemovedOnly(msgs, lists, lists', peers, r);
      } else {
        var i;
        peers', i := MoveDown(peers, pi, RankOf(Ranks(msgs), r), HeadRanks(msgs, lists'));
        RemovedHead(msgs, lists, lists', peers, r, pi, i, peers');
      }
    }

    // ----- Sending grants -----

    /** Sends a grant to `r` if that is appropriate: the grant reaches exactly
        as far as window, message end and overall limit allow. */
    method SendGrant(r: Id) returns (granted: bool)
      requires r in msgs
      modifies this`msgs, this`sent
      ensures r in msgs
      ensures var m, m' := old(msgs)[r], msgs[r];
        && msgs == old(msgs)[r := m.(granted := m'.granted, resendAll := m.resendAll && !granted)]
        && var least := if m.granted < Received(m) then Received(m) else m.granted;
           var limit := GrantLimit(m, grantWindow, maxIncoming, totalIncoming);
        && (granted <==> least < limit && m.silentTicks <= 1)
        && m'.granted == (if granted then limit else least)
        && sent == old(sent) + (if granted then [GrantPkt(r, m'.granted, m.priority, m.resendAll)] else [])
    {
      var m := msgs[r];
      var incoming := m.granted - (m.length - m.bytesRemaining);
      if incoming < 0 {
        msgs := msgs[r := m.(granted := m.length - m.bytesRemaining)];
        incoming := 0;
      }
      var increment := grantWindow - incoming;
      if increment > m.length - msgs[r].granted {
        increment := m.length - msgs[r].granted;
      }
      var available := maxIncoming - totalIncoming + m.recIncoming - incoming;
      if increment > available {
        increment := available;
      }
      granted := false;
      if increment > 0 && m.silentTicks <= 1 {
        var g := msgs[r].granted + increment;
        sent := sent + [GrantPkt(r, g, m.priority, m.resendAll)];
        msgs := msgs[r := m.(granted := g, resendAll := false)];
        granted := true;
      }
    }

    /** Sends what grant `r` should get and records the result: afterwards `r`
        is fully granted or needs nothing, and a total that includes a new
        grant is within the limit. */
    method GrantAndRecord(r: Id) returns (granted: bool, dropped: bool)
      requires r in msgs && totalIncoming == SumRec(msgs)
      modifies this`msgs, this`sent, this`totalIncoming
      ensures r in msgs
      ensures var m, m' := old(msgs)[r], msgs[r];
        && msgs == old(msgs)[r := m']
        && GrantStep(m, m', granted)
        && (granted ==> totalIncoming <= maxIncoming && Incoming(m') <= grantWindow)
        && (m'.granted >= m'.length || Settled(m', grantWindow, maxIncoming, totalIncoming))
        && sent == old(sent) + (if granted then [GrantPkt(r, m'.granted, m.priority, m.resendAll)] else [])
        && totalIncoming == old(totalIncoming) - m.recIncoming + m'.recIncoming
      ensures totalIncoming == SumRec(msgs)
      ensures dropped <==> old(totalIncoming) >= maxIncoming && totalIncoming < maxIncoming
    {
      granted := SendGrant(r);
      SumRecUpdate(old(msgs), r, msgs[r]);
      dropped := UpdateIncoming(r);
    }

    // ----- Choosing the active messages -----

    /** Looks for the slot of `x` among the first `num` entries, from the end. */
    static method SlotFromEnd(best: array<Id>, num: nat, x: Id, ranks: map<Id, Rank>) returns (pos: nat)
      requires num <= best.Length && Sorted(best[..num], ranks)
      ensures pos == Slot(best[..num], x, ranks)
    {
      ghost var s := best[..num];
      pos := num;
      while pos > 0 && Outranks(RankOf(ranks, x), RankOf(ranks, best[pos - 1]))
        invariant pos <= num
        invariant forall j :: pos <= j < num ==> Outranks(RankOf(ranks, x), RankOf(ranks, s[j]))
      {
        pos := pos - 1;
      }
      SlotIs(s, x, pos, ranks);
    }

    /** Shifts the entries from `pos` on up by one and stores `x` there; the
        last of `max` entries is lost. */
    static method ShiftIn(best: array<Id>, num: nat, max: nat, pos: nat, x: Id) returns (num': nat)
      requires pos <= num <= max <= best.Length && pos < max
      modifies best
      ensures num' <= max
      ensures best[..num'] == Take(old(best[..num])[..pos] + [x] + old(best[..num])[pos..], max)
    {
      ghost var s := best[..num];
      num' := if num < max then num + 1 else num;
      var i := num' - 1;
      while i > pos
        invariant pos <= i <= num' - 1
        invariant forall j :: 0 <= j < num && j <= i ==> best[j] == s[j]
        invariant forall j :: i < j < num' ==> best[j] == s[j - 1]
      {
        best[i] := best[i - 1];
        i := i - 1;
      }
      best[pos] := x;
      ghost var t := s[..pos] + [x] + s[pos..];
      assert forall j :: 0 <= j < num' ==> best[j] == t[j];
    }

    /** Puts `x` into its place among the first `num` entries of `best`, which
        keeps at most `max`; `fits` tells whether `x` was kept. */
    static method InsertBest(best: array<Id>, num: nat, max: nat, x: Id, ranks: map<Id, Rank>)
      returns (num': nat, fits: bool)
      requires num <= max <= best.Length
      requires Sorted(best[..num], ranks)
      modifies best
      ensures num' <= max
      ensures best[..num'] == Take(Insert(old(best[..num]), x, ranks), max)
      ensures fits <==> Slot(old(best[..num]), x, ranks) < max
      ensures !fits ==> num' == num && best[..num] == old(best[..num])
    {
      hide Slot, Sorted;
      var pos := SlotFromEnd(best, num, x, ranks);
      fits := pos < max;
      if fits {
        num' := ShiftIn(best, num, max, pos, x);
      } else {
        num' := num;
      }
    }

    /** How many RPCs of one peer may be active; at least one, whatever the
        configured value. */
    ghost function PeerCap(): nat {
      if maxRpcsPerPeer < 1 then 1 else maxRpcsPerPeer
    }

    /** Considers the RPCs of one peer. */
    method PickFromPeer(best: array<Id>, num: nat, max: nat, pi: nat, ghost c: seq<Id>)
      returns (num': nat, fromPeer: nat, ghost c': seq<Id>)
      requires Linked(msgs, lists, peers) && pi < |peers| && num <= max <= best.Length
      requires PickedFrom(msgs, lists, peers, PeerCap(), pi, 0, best[..num])
      requires best[..num] == Take(StableSort(c, Ranks(msgs)), max)
      modifies best
      ensures num' <= max
      ensures PickedFrom(msgs, lists, peers, PeerCap(), pi + 1, 0, best[..num'])
      ensures best[..num'] == Take(StableSort(c', Ranks(msgs)), max)
      ensures Sorted(ListOf(lists, peers[pi]), Ranks(msgs)) ==> c' == c + Take(ListOf(lists, peers[pi]), PeerCap())
      ensures ListOf(lists, peers[pi]) != []
      ensures fromPeer == 0 ==>
        && num' == num && best[..num] == old(best[..num])
        && NoRoomFor(best[..num], max, ListOf(lists, peers[pi])[0], Ranks(msgs))
    {
      hide Linked, StableSort, PickedFrom, Insert, NoRoomFor, Sorted;
      LinkedPeer(msgs, lists, peers, peers[pi]);
      var list, ranks := ListOf(lists, peers[pi]), Ranks(msgs);
      num', fromPeer := num, 0;
      c' := c;
      assert c + list[..0] == c;
      while fromPeer < |list|
        invariant fromPeer <= |list| && fromPeer < PeerCap() && num' <= max
        invariant fromPeer == 0 ==> num' == num && best[..num] == old(best[..num])
        invariant PickedFrom(msgs, lists, peers, PeerCap(), pi, fromPeer, best[..num'])
        invariant c' == c + list[..fromPeer]
        invariant best[..num'] == Take(StableSort(c', ranks), max)
      {
        var x, fits := list[fromPeer], false;
        ghost var s := best[..num'];
        SortedPick(msgs, lists, peers, PeerCap(), pi, fromPeer, s);
        PickedOneMore(msgs, lists, peers, PeerCap(), pi, fromPeer, s, max);
        BestOfOneMore(c', x, max, ranks);
        num', fits := InsertBest(best, num', max, x, ranks);
        if !fits {
          NoSlot(s, x, max, ranks);
          PickedFromPeer(msgs, lists, peers, PeerCap(), pi, fromPeer, s);
          if Sorted(list, ranks) {
            RestOfListDoesNotFit(c, list, fromPeer, PeerCap(), max, ranks);
            c' := c + Take(list, PeerCap());
          }
          return;
        }
        assert list[..fromPeer + 1] == list[..fromPeer] + [x];
        c' := c' + [x];
        fromPeer := fromPeer + 1;
        if fromPeer >= maxRpcsPerPeer {
          break;
        }
      }
      assert Take(list, PeerCap()) == list[..fromPeer];
      PickedFromPeer(msgs, lists, peers, PeerCap(), pi, fromPeer, best[..num']);
    }

    /** Chooses the RPCs to grant to, highest priority first. On lists in
        order, leaving the scans early loses nothing. */
    method PickRpcs(rpcs: array<Id>, max: nat) returns (num: nat)
      requires Linked(msgs, lists, peers) && max <= rpcs.Length
      modifies rpcs
      ensures num <= max
      ensures Eligible(msgs, lists, PeerCap(), rpcs[..num])
      ensures Ordered(msgs, lists, peers) ==> rpcs[..num] == Best(msgs, lists, peers, PeerCap(), max)
      ensures Ordered(msgs, lists, peers) ==>
        ShortestFirst(msgs, rpcs[..num]) && NoneLeftOut(msgs, lists, PeerCap(), max, rpcs[..num])
    {
      hide Linked, StableSort, NoRoomFor, Sorted, Eligible, ShortestFirst, NoneLeftOut;
      BestIsRight(msgs, lists, peers, PeerCap(), max);
      num := 0;
      ghost var c: seq<Id> := [];
      NothingPicked(msgs, lists, peers, PeerCap(), max);
      assert rpcs[..0] == [];
      var pi := 0;
      while pi < |peers|
        invariant pi <= |peers| && num <= max
        invariant PickedFrom(msgs, lists, peers, PeerCap(), pi, 0, rpcs[..num])
        invariant rpcs[..num] == Take(StableSort(c, Ranks(msgs)), max)
        invariant Ordered(msgs, lists, peers) ==> c == Candidates(lists, peers[..pi], PeerCap())
      {
        var fromPeer;
        ghost var c0 := c;
        num, fromPeer, c := PickFromPeer(rpcs, num, max, pi, c);
        assert peers[..pi + 1][..pi] == peers[..pi];
        if Ordered(msgs, lists, peers) { ListInOrder(msgs, lists, peers, peers[pi]); }
        if fromPeer == 0 {
          if Ordered(msgs, lists, peers) {
            RestOfPeersDoesNotFit(msgs, lists, peers, PeerCap(), pi, max);
          }
          return;
        }
        pi := pi + 1;
      }
      assert peers[..pi] == peers;
    }

    // ----- Recomputing the active messages -----

    /** Takes the rank away from all messages. */
    method ClearRanks()
      requires ActiveValid()
      modifies this`msgs
      ensures OnlyRankChanged(old(msgs), msgs) && RanksNamed(msgs, [])
    {
      hide RanksFrom, Distinct;
      ghost var names := active[..numActive];
      assert RanksFrom(msgs, names, 0) by { NamesAreRanks(msgs, names); }
      for i := 0 to numActive
        invariant OnlyRankChanged(old(msgs), msgs) && RanksFrom(msgs, names, i)
      {
        ClearOne(msgs, names, i);
        OnlyRankChangedTwice(old(msgs), msgs, msgs[names[i] := msgs[names[i]].(rank := -1)]);
        msgs := msgs[active[i] := msgs[active[i]].(rank := -1)];
      }
      NoneRanked(msgs, names);
    }

    /** The priority for grants to the message with rank `i` of `n`. */
    function PriorityFor(i: int, n: int): int {
      var p := maxSchedPrio - i;
      var extra := maxSchedPrio + 1 - n;
      var p := if extra >= 0 then p - extra else p;
      if p < 0 then 0 else p
    }

    /** Gives the chosen messages their rank and priority. */
    method AssignRanks()
      requires active.Length == |activeRemaining| == HOMA_MAX_GRANTS && numActive <= HOMA_MAX_GRANTS
      requires Distinct(active[..numActive]) && RanksNamed(msgs, [])
      requires forall i :: 0 <= i < numActive ==> active[i] in msgs
      modifies this`msgs, this`activeRemaining
      ensures OnlyRankChanged(old(msgs), msgs) && RanksNamed(msgs, active[..numActive])
      ensures |activeRemaining| == HOMA_MAX_GRANTS
      ensures RemainingAre(msgs, active[..numActive], activeRemaining)
      ensures maxSchedPrio >= 0 ==> PrioritiesFall(msgs, active[..numActive], maxSchedPrio)
    {
      hide RanksNamed, PrioritiesFall;
      ghost var names := active[..numActive];
      assert names[..0] == [];
      for i := 0 to numActive
        invariant OnlyRankChanged(old(msgs), msgs) && |activeRemaining| == HOMA_MAX_GRANTS
        invariant RanksNamed(msgs, names[..i])
        invariant forall j :: 0 <= j < i ==>
          && msgs[names[j]].priority == PriorityFor(j, numActive)
          && activeRemaining[j] == msgs[names[j]].bytesRemaining
      {
        var r := active[i];
        NamesOneMore(msgs, names, i, PriorityFor(i, numActive));
        activeRemaining := activeRemaining[i := msgs[r].bytesRemaining];
        msgs := msgs[r := msgs[r].(rank := i, priority := PriorityFor(i, numActive))];
        assert forall j :: 0 <= j < i ==> names[j] != names[i];
      }
      assert names[..numActive] == names;
      if maxSchedPrio >= 0 { PrioritiesAre(names); }
    }

    lemma PrioritiesAre(names: seq<Id>)
      requires maxSchedPrio >= 0
      requires forall i :: 0 <= i < |names| ==> names[i] in msgs && msgs[names[i]].priority == PriorityFor(i, |names|)
      ensures PrioritiesFall(msgs, names, maxSchedPrio)
    {
    }

    /** Bytes that each active message may have outstanding, with the
        truncating division of C. */
    function WindowFor(n: nat): int {
      if windowParam != 0 then windowParam
      else if maxIncoming >= 0 then maxIncoming / (n + 1)
      else -(-maxIncoming / (n + 1))
    }

    /** The window is the configured one, or else the limit divided evenly
        among the active messages and one more, without the remainder. */
    ghost predicate WindowIsShare()
      reads this`grantWindow, this`numActive
    {
      && (windowParam != 0 ==> grantWindow == windowParam)
      && (windowParam == 0 && maxIncoming >= 0 ==>
            grantWindow * (numActive + 1) <= maxIncoming < (grantWindow + 1) * (numActive + 1))
      && (windowParam == 0 && maxIncoming < 0 ==>
            -grantWindow * (numActive + 1) <= -maxIncoming < (-grantWindow + 1) * (numActive + 1))
    }

    lemma WindowBounds()
      requires grantWindow == WindowFor(numActive)
      ensures WindowIsShare()
    {
      if windowParam == 0 {
        Quotient(if maxIncoming >= 0 then maxIncoming else -maxIncoming, numActive + 1);
      }
    }

    /** Recomputes which messages to grant to. */
    method Activate()
      requires Consistent()
      modifies this`msgs, this`numActive, this`activeRemaining, this`grantWindow, active
      ensures Consistent()
      ensures OnlyRankChanged(old(msgs), msgs)
      ensures Eligible(msgs, lists, PeerCap(), active[..numActive])
      ensures Ordered(msgs, lists, peers) ==>
        active[..numActive] == Best(msgs, lists, peers, PeerCap(), maxOvercommit)
      ensures WindowIsShare()
      ensures RemainingAre(msgs, active[..numActive], activeRemaining)
      ensures maxSchedPrio >= 0 ==> PrioritiesFall(msgs, active[..numActive], maxSchedPrio)
      ensures Ordered(msgs, lists, peers) ==>
        ShortestFirst(msgs, active[..numActive]) && NoneLeftOut(msgs, lists, PeerCap(), maxOvercommit, active[..numActive])
    {
      hide Linked, SumRec, GrantsAdvance, GrantableSet, Eligible, Best, Ordered, OnlyRankChanged, RanksNamed,
           Contributing, Distinct, WindowIsShare, PrioritiesFall, ShortestFirst, NoneLeftOut, RemainingAre;
      Choose();
      BestIsRight(msgs, lists, peers, PeerCap(), maxOvercommit);
      grantWindow := WindowFor(numActive);
      WindowBounds();
    }

    /** Chooses the active messages, and ranks them. */
    method Choose()
      requires Consistent()
      modifies this`msgs, this`numActive, this`activeRemaining, active
      ensures Consistent()
      ensures OnlyRankChanged(old(msgs), msgs)
      ensures Eligible(msgs, lists, PeerCap(), active[..numActive])
      ensures Ordered(msgs, lists, peers) ==>
        active[..numActive] == Best(msgs, lists, peers, PeerCap(), maxOvercommit)
      ensures RemainingAre(msgs, active[..numActive], activeRemaining)
      ensures maxSchedPrio >= 0 ==> PrioritiesFall(msgs, active[..numActive], maxSchedPrio)
    {
      hide Linked, SumRec, GrantsAdvance, StaleSet, GrantableSet, Eligible, Best, Ordered, OnlyRankChanged, RanksNamed,
           Contributing, Debt, AtLeast, Distinct, Work, PrioritiesFall, ShortestFirst, NoneLeftOut, RemainingAre;
      ClearRanks();
      ghost var msgs1 := msgs;
      OnlyRankChangedFacts(old(msgs), msgs1, lists, peers);
      numActive := PickRpcs(active, maxOvercommit);
      EligibleFacts(msgs, lists, PeerCap(), active[..numActive]);
      AssignRanks();
      OnlyRankChangedFacts(msgs1, msgs, lists, peers);
      OnlyRankChangedTwice(old(msgs), msgs1, msgs);
      OnlyRankChangedSum(old(msgs), msgs);
      OnlyRankChangedDebt(old(msgs), msgs);
    }

    /** One active message gets what grant it should have. */
    method GrantNext(i: nat) returns (again: bool)
      requires Consistent() && i < numActive && InList(msgs, lists, active[i])
      modifies this`msgs, this`sent, this`totalIncoming, this`lists, this`peers, this`numGrantable
      ensures Consistent()
      ensures active[i] in msgs && msgs == old(msgs)[active[i] := msgs[active[i]]] && UpToDate(msgs[active[i]])
      ensures OnlyGrantsChanged(old(msgs), msgs) && SamePriorities(old(msgs), msgs)
      ensures msgs[active[i]].rank == old(msgs)[active[i]].rank
      ensures old(GrantableSet(msgs, lists)) - {active[i]} <= GrantableSet(msgs, lists) <= old(GrantableSet(msgs, lists))
      ensures NoneStranded(old(msgs), old(lists), msgs, lists)
      ensures again ==> Work(msgs, lists) < old(Work(msgs, lists))
      ensures !again ==>
        && Work(msgs, lists) <= old(Work(msgs, lists))
        && lists == old(lists) && peers == old(peers)
        && GrantableSet(msgs, lists) == old(GrantableSet(msgs, lists))
        && Settled(msgs[active[i]], grantWindow, maxIncoming, totalIncoming)
        && (old(totalIncoming) >= maxIncoming ==> totalIncoming >= maxIncoming)
      ensures Debt(msgs) <= old(Debt(msgs)) && Exposure() <= old(Exposure())
      ensures Debt(msgs) <= old(Debt(msgs)) - Owed(old(msgs)[active[i]])
    {
      hide Linked, SumRec, GrantsAdvance, RanksNamed, GrantableSet, StaleSet, Work, PeersAfterRemoval, Distinct,
           Contributing, Debt, Owed, AtLeast;
      var r := active[i];
      var granted, dropped := GrantAndRecord(r);
      again := dropped;
      DebtPaid(old(msgs), r, msgs[r], granted, old(totalIncoming), totalIncoming, maxIncoming);
      AfterGrantStep(old(msgs), lists, peers, active[..numActive], r, msgs[r], granted);
      GrantsAdvanceStep(old(sent), old(msgs), r, msgs[r], granted,
                        GrantPkt(r, msgs[r].granted, old(msgs)[r].priority, old(msgs)[r].resendAll));
      assert !granted ==> sent == old(sent);
      if msgs[r].granted >= msgs[r].length {
        again := true;
        RemoveRpc(r);
        WorkAfterRemove(msgs, old(lists), lists, r);
      }
    }

    /** Nothing more can be granted: every active message has a silent sender
        or a full window, or the overall limit is used up. The active messages
        are the right ones for the lists as they are, if those are in order. */
    ghost predicate NothingToGrant()
      reads this, active
      requires ActiveValid()
    {
      && WindowIsShare()
      && (forall i :: 0 <= i < numActive ==>
            Settled(msgs[active[i]], grantWindow, maxIncoming, totalIncoming))
      && RemainingAre(msgs, active[..numActive], activeRemaining)
      && (maxSchedPrio >= 0 ==> PrioritiesFall(msgs, active[..numActive], maxSchedPrio))
      && (Ordered(msgs, lists, peers) ==>
            active[..numActive] == Best(msgs, lists, peers, PeerCap(), maxOvercommit))
    }

    /** An active message has its share outstanding, if its sender is not
        silent and the overall limit is not used up. */
    ghost predicate HasShare(m: MsgIn)
      reads this`numActive, this`totalIncoming
    {
      || m.silentTicks > 1 || totalIncoming >= maxIncoming
      || (if windowParam != 0 then Incoming(m) >= windowParam
          else maxIncoming >= 0 ==> (Incoming(m) + 1) * (numActive + 1) > maxIncoming)
    }

    lemma SettledHasShare(m: MsgIn)
      requires WindowIsShare() && Settled(m, grantWindow, maxIncoming, totalIncoming)
      ensures HasShare(m)
    {
      if Incoming(m) >= grantWindow && windowParam == 0 && maxIncoming >= 0 {
        ShareGrows(grantWindow + 1, Incoming(m) + 1, numActive + 1);
      }
    }

    /** What it means for the messages that nothing can be granted. */
    lemma NothingToGrantMeans()
      requires Valid() && NothingToGrant()
      ensures forall i :: 0 <= i < numActive ==> HasShare(msgs[active[i]])
      ensures Ordered(msgs, lists, peers) ==>
        ShortestFirst(msgs, active[..numActive]) && NoneLeftOut(msgs, lists, PeerCap(), maxOvercommit, active[..numActive])
    {
      hide Linked, Settled, HasShare, WindowIsShare, PrioritiesFall, Ordered, Best, ShortestFirst, NoneLeftOut;
      forall i | 0 <= i < numActive ensures HasShare(msgs[active[i]]) {
        SettledHasShare(msgs[active[i]]);
      }
      BestIsRight(msgs, lists, peers, PeerCap(), maxOvercommit);
    }

    /** Every active message gets what grant it should have. */
    method GrantAll() returns (again: bool)
      requires Valid()
      modifies this`msgs, this`sent, this`totalIncoming, this`lists, this`peers, this`numGrantable
      ensures Consistent()
      ensures OnlyGrantsChanged(old(msgs), msgs) && SamePriorities(old(msgs), msgs)
      ensures NoneStranded(old(msgs), old(lists), msgs, lists)
      ensures GrantableSet(msgs, lists) <= old(GrantableSet(msgs, lists))
      ensures again ==> Work(msgs, lists) < old(Work(msgs, lists))
      ensures !again ==>
        && Valid() && lists == old(lists) && peers == old(peers)
        && (forall j :: 0 <= j < numActive ==>
              Settled(msgs[active[j]], grantWindow, maxIncoming, totalIncoming))
      ensures Debt(msgs) <= old(Debt(msgs)) && Exposure() <= old(Exposure())
    {
      hide Linked, SumRec, GrantsAdvance, StaleSet, OnlyGrantsChanged,
           RanksNamed, GrantableSet, Work, Contributing, Debt, AtLeast, Settled, InList, PrioritiesFall, WindowIsShare;
      GrantableIsInList(msgs, lists);
      NoGrantChange(msgs);
      again := false;
      ghost var names := active[..numActive];
      for i := 0 to numActive
        invariant Consistent() && OnlyGrantsChanged(old(msgs), msgs) && SamePriorities(old(msgs), msgs)
        invariant NoneStranded(old(msgs), old(lists), msgs, lists)
        invariant GrantableSet(msgs, lists) <= old(GrantableSet(msgs, lists))
        invariant forall j :: i <= j < numActive ==> names[j] in GrantableSet(msgs, lists)
        invariant Work(msgs, lists) <= old(Work(msgs, lists))
        invariant again ==> Work(msgs, lists) < old(Work(msgs, lists))
        invariant !again ==>
          && lists == old(lists) && peers == old(peers)
          && (forall j :: 0 <= j < numActive ==> names[j] in GrantableSet(msgs, lists) && names[j] in msgs)
          && (forall j :: 0 <= j < i ==> Settled(msgs[names[j]], grantWindow, maxIncoming, totalIncoming))
        invariant Debt(msgs) <= old(Debt(msgs)) && Exposure() <= old(Exposure())
      {
        ghost var before, blists, total := msgs, lists, totalIncoming;
        GrantableIsInList(msgs, lists);
        assert active[i] == names[i] && names[i] in GrantableSet(msgs, lists);
        assert forall j :: 0 <= j < numActive && j != i ==> names[j] != names[i];
        var again' := GrantNext(i);
        again := again || again';
        OnlyGrantsChangedTwice(old(msgs), before, msgs);
        NoneStrandedTwice(old(msgs), old(lists), before, blists, msgs, lists);
        GrantableIsInList(msgs, lists);
        StillSettled(grantWindow, maxIncoming, total, totalIncoming);
      }
      GrantableIsInList(msgs, lists);
    }

    /** One round: choose the active messages and grant to each of them. */
    method GrantRound() returns (again: bool)
      requires Consistent()
      modifies this, active
      ensures Consistent()
      ensures OnlyGrantsChanged(old(msgs), msgs)
      ensures NoneStranded(old(msgs), old(lists), msgs, lists)
      ensures GrantableSet(msgs, lists) <= old(GrantableSet(msgs, lists))
      ensures again ==> Work(msgs, lists) < old(Work(msgs, lists))
      ensures !again ==> Valid() && NothingToGrant()
      ensures Debt(msgs) <= old(Debt(msgs)) && Exposure() <= old(Exposure())
    {
      hide Linked, SumRec, GrantsAdvance, StaleSet, Eligible, Best, Ordered, OnlyRankChanged, OnlyGrantsChanged,
           RanksNamed, GrantableSet, Work, Contributing, Debt, AtLeast, Settled, InList, PrioritiesFall, WindowIsShare;
      Activate();
      OnlyRankChangedFacts(old(msgs), msgs, lists, peers);
      OnlyRankChangedDebt(old(msgs), msgs);
      EligibleFacts(msgs, lists, PeerCap(), active[..numActive]);
      ghost var mid := msgs;
      again := GrantAll();
      RankChangeIsGrantChange(old(msgs), mid);
      OnlyGrantsChangedTwice(old(msgs), mid, msgs);
      ChoiceUnchanged(mid, msgs, lists, peers);
      if maxSchedPrio >= 0 { PrioritiesKept(mid, msgs, active[..numActive], maxSchedPrio); }
      RemainingKept(mid, msgs, active[..numActive], activeRemaining);
    }

    /** Recomputes the active messages and sends the grants they should have,
        over again as long as that opens up new opportunities. */
    method Recalc()
      requires Consistent()
      modifies this, active
      ensures Valid() && NothingToGrant()
      // In terms of the messages:
      ensures forall i :: 0 <= i < numActive ==> HasShare(msgs[active[i]])
      ensures Ordered(msgs, lists, peers) ==>
        ShortestFirst(msgs, active[..numActive]) && NoneLeftOut(msgs, lists, PeerCap(), maxOvercommit, active[..numActive])
      ensures OnlyGrantsChanged(old(msgs), msgs)
      ensures NoneStranded(old(msgs), old(lists), msgs, lists)
      ensures GrantableSet(msgs, lists) <= old(GrantableSet(msgs, lists))
      ensures Debt(msgs) <= old(Debt(msgs)) && Exposure() <= old(Exposure())
    {
      hide Linked, SumRec, GrantsAdvance, StaleSet, Ordered, OnlyGrantsChanged, GrantableSet, Best, Settled, HasShare,
           WindowIsShare, PrioritiesFall, ShortestFirst, NoneLeftOut;
      NoGrantChange(msgs);
      var again := true;
      while again
        invariant Consistent() && OnlyGrantsChanged(old(msgs), msgs)
        invariant NoneStranded(old(msgs), old(lists), msgs, lists)
        invariant GrantableSet(msgs, lists) <= old(GrantableSet(msgs, lists))
        invariant !again ==> Valid() && NothingToGrant()
        invariant Debt(msgs) <= old(Debt(msgs)) && Exposure() <= old(Exposure())
        decreases if again then Work(msgs, lists) + 1 else 0
      {
        ghost var before, blists := msgs, lists;
        again := GrantRound();
        OnlyGrantsChangedTwice(old(msgs), before, msgs);
        NoneStrandedTwice(old(msgs), old(lists), before, blists, msgs, lists);
      }
      NothingToGrantMeans();
    }

    // ----- Events -----

    /** A new incoming message, with the pages of buffer space it got. */
    method MessageInInit(r: Id, peer: Id, length: nat, unscheduled: int, numBpages: nat)
      requires Valid() && r !in msgs && (forall g :: g in sent ==> g.rpc != r)
      modifies this`msgs
      ensures Valid()
      ensures var granted := if numBpages == 0 then 0 else if unscheduled > length then length else unscheduled;
        msgs == old(msgs)[r := MsgIn(peer, length, length, granted, 0, -1, 0, false, 0, 0, numBpages)]
      ensures Debt(msgs) == old(Debt(msgs)) + Unscheduled(NewMessage(r, peer, length, unscheduled, numBpages))
      ensures Exposure() == old(Exposure()) + Unscheduled(NewMessage(r, peer, length, unscheduled, numBpages))
    {
      hide Linked, SumRec, GrantsAdvance, RanksNamed, GrantableSet, Contributing, Debt, AtLeast;
      var m := MsgIn(peer, length, length, if unscheduled > length then length else unscheduled,
                     0, -1, 0, false, 0, 0, numBpages);
      if numBpages == 0 {
        m := m.(granted := 0);
      }
      AfterNewMessage(msgs, lists, peers, active[..numActive], sent, r, m);
      msgs := msgs[r := m];
    }

    /** A packet with `n` new bytes of message `r`, and nothing else, changes
        how much is missing. */
    method DataArrived(r: Id, n: nat)
      requires Valid() && r in msgs
      modifies this`msgs
      ensures Valid()
      ensures msgs == old(msgs)[r := old(msgs)[r].(bytesRemaining := old(msgs)[r].bytesRemaining - n, silentTicks := 0)]
      ensures Debt(msgs) <= old(Debt(msgs)) && Exposure() <= old(Exposure())
    {
      ChangeLocally(r, msgs[r].(bytesRemaining := msgs[r].bytesRemaining - n, silentTicks := 0));
    }

    /** The timer passes over message `r`. */
    method Tick(r: Id)
      requires Valid() && r in msgs
      modifies this`msgs
      ensures Valid()
      ensures msgs == old(msgs)[r := old(msgs)[r].(silentTicks := old(msgs)[r].silentTicks + 1)]
      ensures Debt(msgs) <= old(Debt(msgs)) && Exposure() <= old(Exposure())
    {
      ChangeLocally(r, msgs[r].(silentTicks := msgs[r].silentTicks + 1));
    }

    /** A message that was waiting for buffer space gets some. */
    method BuffersAllocated(r: Id, numBpages: nat)
      requires Valid() && r in msgs
      modifies this`msgs
      ensures Valid()
      ensures msgs == old(msgs)[r := old(msgs)[r].(numBpages := numBpages, resendAll := true)]
      ensures Debt(msgs) <= old(Debt(msgs)) && Exposure() <= old(Exposure())
    {
      ChangeLocally(r, msgs[r].(numBpages := numBpages, resendAll := true));
    }

    method ChangeLocally(r: Id, m: MsgIn)
      requires Valid() && r in msgs && LocalChange(msgs[r], m)
      modifies this`msgs
      ensures Valid() && msgs == old(msgs)[r := m]
      ensures Debt(msgs) <= old(Debt(msgs)) && Exposure() <= old(Exposure())
    {
      hide Linked, SumRec, GrantsAdvance, RanksNamed, GrantableSet, Contributing, Debt, AtLeast;
      AfterLocalChange(msgs, lists, peers, active[..numActive], sent, r, m);
      msgs := msgs[r := m];
      GrantableIsInList(msgs, lists);
      GrantableIsInList(old(msgs), lists);
    }

    /** Takes `r` out of the lists and, if it was active, out of the choice. */
    method Unschedule(r: Id)
      requires Valid() && InList(msgs, lists, r)
      modifies this, active
      ensures Valid() && r in msgs && !InList(msgs, lists, r)
      ensures old(msgs)[r].rank >= 0 ==> NothingToGrant()
      ensures OnlyGrantsChanged(old(msgs), msgs)
      ensures Debt(msgs) <= old(Debt(msgs)) && Exposure() <= old(Exposure())
    {
      hide Linked, SumRec, GrantsAdvance, RanksNamed, GrantableSet, Contributing, Debt, AtLeast, OnlyGrantsChanged, PeersAfterRemoval,
           NothingToGrant, Distinct;
      NoGrantChange(msgs);
      ghost var names := active[..numActive];
      UnrankedNotNamed(msgs, names, r);
      GrantableIsInList(msgs, lists);
      RemoveRpc(r);
      GrantableIsInList(msgs, lists);
      if msgs[r].rank >= 0 {
        Recalc();
        OnlyGrantsChangedWithout(old(msgs), msgs, r);
        GrantableIsInList(msgs, lists);
      } else {
        assert forall i :: 0 <= i < numActive ==> active[i] == names[i] && names[i] in names;
      }
    }

    /** The message `r` is gone. */
    method FreeRpc(r: Id)
      requires Valid() && r in msgs
      modifies this, active
      ensures Valid()
      ensures OnlyGrantsChanged(old(msgs) - {r}, msgs)
      ensures Debt(msgs) <= old(Debt(msgs)) && Exposure() <= old(Exposure())
    {
      hide Linked, SumRec, GrantsAdvance, RanksNamed, GrantableSet, Contributing, Debt, OnlyGrantsChanged, Distinct;
      NoGrantChange(msgs);
      if InList(msgs, lists, r) {
        Unschedule(r);
      }
      OnlyGrantsChangedWithout(old(msgs), msgs, r);
      UnlistedHasNoRank(msgs, lists, active[..numActive], r);
      AfterFree(msgs, lists, peers, active[..numActive], sent, r);
      ContributionOf(msgs, r);
      if msgs[r].recIncoming != 0 {
        totalIncoming := totalIncoming - msgs[r].recIncoming;
      }
      msgs := msgs - {r};
    }

    /** Brings the contribution of `r` up to date between operations. */
    method Record(r: Id) returns (dropped: bool)
      requires Valid() && r in msgs
      modifies this`msgs, this`totalIncoming
      ensures Valid() && OnlyGrantsChanged(old(msgs), msgs)
      ensures msgs == old(msgs)[r := old(msgs)[r].(recIncoming := Incoming(old(msgs)[r]))]
      ensures GrantableSet(msgs, lists) == old(GrantableSet(msgs, lists))
      ensures Debt(msgs) <= old(Debt(msgs)) - Owed(old(msgs)[r])
      ensures Debt(msgs) <= old(Debt(msgs)) && Exposure() <= old(Exposure())
    {
      hide Linked, SumRec, GrantsAdvance, RanksNamed, GrantableSet, OnlyGrantsChanged, Distinct,
           Contributing, Debt, Owed, AtLeast;
      AfterRecord(msgs, lists, peers, active[..numActive], sent, r);
      GrantableIsInList(msgs, lists);
      dropped := UpdateIncoming(r);
      DebtPaid(old(msgs), r, msgs[r], false, old(totalIncoming), totalIncoming, maxIncoming);
      GrantableIsInList(msgs, lists);
    }

    /** `r` may have to become active, or to move up among the active ones. */
    ghost predicate MustRecalc(r: Id)
      requires Valid() && r in msgs
      reads this, active
    {
      var m := msgs[r];
      && m.numBpages > 0 && m.granted < m.length
      && if !InList(msgs, lists, r) then numActive < maxOvercommit || m.bytesRemaining < activeRemaining[maxOvercommit - 1]
         else if m.rank < 0 then m.bytesRemaining < activeRemaining[maxOvercommit - 1]
         else 0 < m.rank <= |activeRemaining| && m.bytesRemaining < activeRemaining[m.rank - 1]
    }

    /** `r` is active, and may be granted more. */
    ghost predicate IsActive(r: Id)
      requires r in msgs
      reads this
    {
      msgs[r].numBpages > 0 && msgs[r].granted < msgs[r].length && InList(msgs, lists, r) && msgs[r].rank >= 0
    }

    /** `r` has changed, for example because data has arrived: makes it
        grantable if it should be, sends grants, and looks for a better
        choice of active messages where that is called for. */
    method CheckRpc(r: Id, now: nat)
      requires Valid() && r in msgs
      modifies this, active
      ensures Valid() && r in msgs
      ensures OnlyGrantsChanged(old(msgs)[r := old(msgs)[r].(birth := msgs[r].birth)], msgs)
      // With buffers, the message is recorded and is in the lists as long as
      // it needs grants; an active one gets what it should have; and the
      // choice is made anew if this message may belong into it, or further up.
      ensures old(msgs)[r].numBpages > 0 ==> UpToDate(msgs[r])
      ensures old(msgs)[r].numBpages > 0 && msgs[r].granted < msgs[r].length ==> InList(msgs, lists, r)
      ensures old(MustRecalc(r)) ==> NothingToGrant()
      ensures !old(MustRecalc(r)) && !old(IsActive(r)) ==> SameChoice(old(sent), old(numActive), old(active[..]))
      // What is known about the active message is up to date.
      ensures old(IsActive(r)) && msgs[r].rank >= 0 ==>
        msgs[r].rank < |activeRemaining| && activeRemaining[msgs[r].rank] == msgs[r].bytesRemaining
      ensures old(IsActive(r)) && msgs[r].granted < msgs[r].length ==>
        NothingToGrant() || Settled(msgs[r], grantWindow, maxIncoming, totalIncoming)
      ensures old(msgs)[r].numBpages == 0 ==> msgs == old(msgs) && sent == old(sent)
      ensures old(msgs)[r].numBpages > 0 ==> Debt(msgs) <= old(Debt(msgs)) - Owed(old(msgs)[r])
      ensures Debt(msgs) <= old(Debt(msgs)) && Exposure() <= old(Exposure())
    {
      hide Linked, SumRec, GrantsAdvance, RanksNamed, GrantableSet, OnlyGrantsChanged, NothingToGrant, NoneStranded,
           Contributing, Debt, Owed, AtLeast, Distinct, InList;
      var m := msgs[r];
      NoGrantChange(msgs);
      if m.numBpages <= 0 {
        BirthUnchanged(old(msgs), msgs, r);
        return;
      }
      if m.granted < m.length && !InList(msgs, lists, r) {
        CheckNew(r, now);
        BirthOf(old(msgs), msgs, r, now);
        return;
      }
      if m.granted >= m.length {
        RecordThen(r, false);
      } else if m.rank < 0 {
        RecordThen(r, m.bytesRemaining < activeRemaining[maxOvercommit - 1]);
      } else {
        NamedAtRank(msgs, active[..numActive], r);
        activeRemaining := activeRemaining[m.rank := m.bytesRemaining];
        if m.rank > 0 && m.bytesRemaining < activeRemaining[m.rank - 1] {
          RecordThen(r, true);
        } else {
          GrantOne(r);
        }
        SameRemaining(old(msgs), msgs, r);
        if NothingToGrant() && msgs[r].rank >= 0 { ActiveUpToDate(r); }
      }
      SameRemaining(old(msgs), msgs, r);
      BirthUnchanged(old(msgs), msgs, r);
    }

    lemma ActiveUpToDate(r: Id)
      requires Valid() && NothingToGrant() && r in msgs && msgs[r].rank >= 0
      ensures msgs[r].rank < |activeRemaining| && activeRemaining[msgs[r].rank] == msgs[r].bytesRemaining
    {
      NamedAtRank(msgs, active[..numActive], r);
    }

    method RecordThen(r: Id, recalc: bool)
      requires Valid() && r in msgs
      modifies this, active
      ensures Valid() && r in msgs && UpToDate(msgs[r])
      ensures recalc ==> NothingToGrant()
      ensures !recalc ==> SameChoice(old(sent), old(numActive), old(active[..]))
      ensures old(InList(msgs, lists, r)) && msgs[r].granted < msgs[r].length ==> InList(msgs, lists, r)
      ensures OnlyGrantsChanged(old(msgs), msgs)
      ensures Debt(msgs) <= old(Debt(msgs)) - Owed(old(msgs)[r])
      ensures Debt(msgs) <= old(Debt(msgs)) && Exposure() <= old(Exposure())
    {
      hide Linked, SumRec, GrantsAdvance, RanksNamed, GrantableSet, OnlyGrantsChanged, NothingToGrant, NoneStranded,
           Contributing, Debt, Owed, AtLeast, Distinct, InList;
      GrantableIsInList(msgs, lists);
      var dropped := Record(r);
      GrantableIsInList(msgs, lists);
      if recalc {
        ghost var msgs1, lists1 := msgs, lists;
        Recalc();
        OnlyGrantsChangedTwice(old(msgs), msgs1, msgs);
        StaysUpToDate(msgs1, msgs, r);
        if InList(msgs1, lists1, r) { StrandedIsGranted(msgs1, lists1, msgs, lists, r); }
      }
    }

    /** Nothing was granted, and the active messages are the same. */
    ghost predicate SameChoice(sent0: seq<GrantPkt>, numActive0: nat, active0: seq<Id>)
      reads this, active
    {
      sent == sent0 && numActive == numActive0 && active[..] == active0
    }

    /** Enters a message into the lists. */
    method Enlist(r: Id, now: nat)
      requires Valid() && r in msgs && !InList(msgs, lists, r)
      modifies this`msgs, this`totalIncoming, this`lists, this`peers, this`numGrantable
      ensures Valid() && InList(msgs, lists, r) && UpToDate(msgs[r])
      ensures numActive == old(numActive) && activeRemaining == old(activeRemaining)
      ensures OnlyGrantsChanged(old(msgs)[r := old(msgs)[r].(birth := now)], msgs)
      ensures Debt(msgs) <= old(Debt(msgs)) - Owed(old(msgs)[r])
      ensures Debt(msgs) <= old(Debt(msgs)) && Exposure() <= old(Exposure())
    {
      hide Linked, SumRec, GrantsAdvance, RanksNamed, GrantableSet, OnlyGrantsChanged,
           Contributing, Debt, Owed, AtLeast, Distinct, SameRest, Ordered, OrderedExcept, Incoming;
      GrantableIsInList(msgs, lists);
      var dropped := Record(r);
      ghost var msgs1 := msgs;
      GrantableIsInList(msgs, lists);
      AfterLocalChange(msgs, lists, peers, active[..numActive], sent, r, msgs[r].(birth := now));
      RecordAndBirth(old(msgs), msgs, r, msgs[r].recIncoming, now);
      AddRpc(r, now);
      GrantableIsInList(msgs, lists);
    }

    /** A message that needs grants but is not in the lists yet. */
    method CheckNew(r: Id, now: nat)
      requires Valid() && r in msgs && !InList(msgs, lists, r)
      modifies this, active
      ensures Valid() && r in msgs && UpToDate(msgs[r])
      ensures OnlyGrantsChanged(old(msgs)[r := old(msgs)[r].(birth := now)], msgs)
      ensures Debt(msgs) <= old(Debt(msgs)) - Owed(old(msgs)[r])
      ensures Debt(msgs) <= old(Debt(msgs)) && Exposure() <= old(Exposure())
      ensures msgs[r].granted < msgs[r].length ==> InList(msgs, lists, r)
      ensures if old(numActive < maxOvercommit || msgs[r].bytesRemaining < activeRemaining[maxOvercommit - 1])
              then NothingToGrant() else SameChoice(old(sent), old(numActive), old(active[..]))
    {
      hide Linked, SumRec, GrantsAdvance, RanksNamed, GrantableSet, OnlyGrantsChanged, NothingToGrant, NoneStranded,
           Contributing, Debt, Owed, AtLeast, Distinct;
      ghost var before := msgs[r];
      Enlist(r, now);
      assert msgs[r].bytesRemaining == before.bytesRemaining by {
        SameRemaining(old(msgs)[r := old(msgs)[r].(birth := now)], msgs, r);
      }
      if numActive < maxOvercommit || msgs[r].bytesRemaining < activeRemaining[maxOvercommit - 1] {
        ghost var msgs1, lists1 := msgs, lists;
        Recalc();
        OnlyGrantsChangedWithout(msgs1, msgs, r);
        OnlyGrantsChangedTwice(old(msgs)[r := old(msgs)[r].(birth := now)], msgs1, msgs);
        StrandedIsGranted(msgs1, lists1, msgs, lists, r);
        StaysUpToDate(msgs1, msgs, r);
      }
    }

    /** An active message whose place in the choice is still right. */
    method GrantOne(r: Id)
      requires Valid() && InList(msgs, lists, r) && msgs[r].rank >= 0
      modifies this, active
      ensures Valid() && r in msgs && UpToDate(msgs[r])
      ensures NothingToGrant() || (activeRemaining == old(activeRemaining) && msgs[r].rank == old(msgs)[r].rank)
      ensures NothingToGrant() || Settled(msgs[r], grantWindow, maxIncoming, totalIncoming)
      ensures msgs[r].granted < msgs[r].length ==> InList(msgs, lists, r)
      ensures OnlyGrantsChanged(old(msgs), msgs)
      ensures Debt(msgs) <= old(Debt(msgs)) - Owed(old(msgs)[r])
      ensures Debt(msgs) <= old(Debt(msgs)) && Exposure() <= old(Exposure())
      ensures NoneStranded(old(msgs), old(lists), msgs, lists)
    {
      hide Linked, SumRec, GrantsAdvance, RanksNamed, GrantableSet, OnlyGrantsChanged, NothingToGrant, NoneStranded, Work,
           Contributing, Debt, Owed, AtLeast;
      NamedAtRank(msgs, active[..numActive], r);
      GrantableIsInList(msgs, lists);
      var again := GrantNext(msgs[r].rank);
      GrantableIsInList(msgs, lists);
      if again {
        ghost var msgs1, lists1 := msgs, lists;
        Recalc();
        OnlyGrantsChangedTwice(old(msgs), msgs1, msgs);
        NoneStrandedTwice(old(msgs), old(lists), msgs1, lists1, msgs, lists);
        StaysUpToDate(msgs1, msgs, r);
      }
      StrandedIsGranted(old(msgs), old(lists), msgs, lists, r);
    }

    // ----- Runs -----

    /** One event; events about messages that do not exist change nothing. */
    method Handle(e: Event)
      requires Valid()
      modifies this, active
      ensures Valid() && Does(old(View()), e, View())
      ensures Debt(msgs) <= old(Debt(msgs)) + Unscheduled(e) && Exposure() <= old(Exposure()) + Unscheduled(e)
      // A check pays what its message owes.
      ensures e.Check? && e.rpc in old(msgs) && old(msgs)[e.rpc].numBpages > 0 ==>
        e.rpc in msgs && Debt(msgs) <= old(Debt(msgs)) - Owed(old(msgs)[e.rpc])
    {
      hide Consistent, Contributing, Debt, Owed, AtLeast, OnlyGrantsChanged, GrantsAdvance;
      if e.NewMessage? {
        if e.rpc !in msgs && forall i :: 0 <= i < |sent| ==> sent[i].rpc != e.rpc {
          MessageInInit(e.rpc, e.peer, e.length, e.unscheduled, e.numBpages);
        }
      } else if e.rpc in msgs {
        match e
        case Data(r, n) => DataArrived(r, n);
        case Check(r, now) => CheckRpc(r, now);
        case Timer(r) => Tick(r);
        case Buffers(r, n) => BuffersAllocated(r, n);
        case Free(r) => FreeRpc(r);
      }
    }

    /** A packet of a message that is not known yet, handled to the end: what
        may be sent unscheduled is counted by then, so that no debt is left. */
    method FirstPacket(r: Id, peer: Id, length: nat, unscheduled: int, numBpages: nat, n: nat, now: nat)
      requires Valid() && r !in msgs && (forall g :: g in sent ==> g.rpc != r)
      modifies this, active
      ensures Valid() && r in msgs && msgs[r].length == length && msgs[r].bytesRemaining == length - n
      ensures Debt(msgs) <= old(Debt(msgs))
      ensures Exposure() <= old(Exposure()) + Unscheduled(NewMessage(r, peer, length, unscheduled, numBpages))
    {
      hide Consistent, OnlyGrantsChanged, GrantsAdvance, Debt, AtLeast;
      MessageInInit(r, peer, length, unscheduled, numBpages);
      ghost var before := msgs;
      DataArrived(r, n);
      DebtUpdate(before, r, msgs[r]);
      ghost var mid := msgs;
      CheckRpc(r, now);
      SameRemaining(mid[r := mid[r].(birth := msgs[r].birth)], msgs, r);
    }

    /** Over any run the total is the sum of the recorded contributions. The
        total may rise above the limit, or further above it, only by what was
        not recorded yet and by what new messages may send unscheduled. */
    method Run(events: seq<Event>) returns (ghost trace: seq<State>, ghost debts: seq<int>)
      requires Valid()
      modifies this, active
      ensures Valid()
      ensures |trace| == |debts| == |events| + 1 && trace[0] == old(View()) && trace[|events|] == View()
      ensures forall k :: 0 <= k <= |events| ==> Counted(trace[k]) && debts[k] == Debt(trace[k].msgs)
      ensures forall k :: 0 <= k < |events| ==> Does(trace[k], events[k], trace[k + 1])
      ensures forall i, j :: 0 <= i <= j <= |events| ==>
        && debts[j] <= debts[i] + NewBytes(events, i, j)
        && trace[j].totalIncoming <= AtLeast(trace[i].totalIncoming, maxIncoming) + debts[i] + NewBytes(events, i, j)
      ensures old(Covered(msgs)) && (forall e :: e in events ==> !e.NewMessage?) ==>
        && Covered(msgs)
        && forall i, j :: 0 <= i < j <= |events| ==>
             trace[j].totalIncoming <= maxIncoming || trace[j].totalIncoming <= trace[i].totalIncoming
    {
      hide Debt, AtLeast, Bounded, OnlyGrantsChanged, GrantsAdvance, ListsValid, ActiveValid, InList, Unscheduled, Covered, Does;
      ghost var totals := [totalIncoming];
      trace, debts := [View()], [Debt(msgs)];
      CoveredIfNoDebt(msgs);
      NothingBoundedYet(events, totalIncoming, Debt(msgs), maxIncoming);
      for n := 0 to |events|
        invariant Valid() && |trace| == |totals| == |debts| == n + 1
        invariant trace[0] == old(View()) && trace[n] == View() && debts[0] == old(Debt(msgs))
        invariant forall k :: 0 <= k <= n ==>
          Counted(trace[k]) && totals[k] == trace[k].totalIncoming && debts[k] == Debt(trace[k].msgs)
        invariant forall k :: 0 <= k < n ==> Does(trace[k], events[k], trace[k + 1])
        invariant Bounded(events, totals, debts, maxIncoming)
      {
        Handle(events[n]);
        CoveredIfNoDebt(msgs);
        BoundedOneMore(events, totals, debts, maxIncoming, totalIncoming, Debt(msgs));
        trace, totals, debts := trace + [View()], totals + [totalIncoming], debts + [Debt(msgs)];
      }
      CoveredIfNoDebt(msgs);
      BoundedFacts(events, totals, debts, maxIncoming);
    }
  }

  /** Why the debt is part of the bound: no new message arrives between the two
      totals, yet the second is above the limit. */
  method RecordingRaisesTotal() returns (maxIncoming: int, before: int, after: int)
    ensures before <= maxIncoming < after
  {
    hide Homa.Consistent, GrantsAdvance, Debt, AtLeast;
    var h := new Homa(1000, 0, 1, 1, 7);
    h.MessageInInit(0, 0, 3000, 2000, 1);
    maxIncoming, before := h.maxIncoming, h.totalIncoming;
    ghost var was := h.msgs;
    h.CheckRpc(0, 0);
    after := h.totalIncoming;
    CheckedTotal(h, was);
  }

  lemma CheckedTotal(h: Homa, was: map<Id, MsgIn>)
    requires h.Valid() && was.Keys == {0} && Incoming(was[0]) == 2000
    requires 0 in h.msgs && OnlyGrantsChanged(was[0 := was[0].(birth := h.msgs[0].birth)], h.msgs) && UpToDate(h.msgs[0])
    ensures h.totalIncoming >= 2000
  {
    SumRecFrom(h.msgs, 0);
    assert h.msgs - {0} == map[];
  }
}
